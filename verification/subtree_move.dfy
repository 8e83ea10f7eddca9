/**
 * Re-parenting a location: the bulk rewrite of `level` and `path` over the
 * moved subtree, and the effect of a whole `update` request on the store,
 * both as the service performs it and as it is evidently meant to behave.
 */
module SubtreeMove {
  import opened Wrappers
  import opened MaterializedPath
  import opened LocationStore
  import opened TreeInvariants

  /** A row of the moved subtree after the rewrite: level shifted, leading `oldPath` replaced by `newPath`. */
  function Shifted(loc: Location, levelDiff: int, oldPath: Path, newPath: Path): Location
    requires Extends(oldPath, loc.path)
  {
    loc.(level := loc.level + levelDiff, path := Rebase(loc.path, oldPath, newPath))
  }

  /**
   * The two UPDATE statements of the subtree rewrite: first the row `nodeId`
   * gets `level + levelDiff` and `path := newPath`; then every row whose path
   * lies below `oldPath` (in the store left by the first statement) gets
   * `level + levelDiff` and its leading `oldPath` replaced by `newPath`.
   */
  function Rebased(s: Store, nodeId: Id, levelDiff: int, oldPath: Path, newPath: Path): (t: Store)
    ensures t.Keys == s.Keys
  {
    var s0 := if nodeId in s then s[nodeId := s[nodeId].(level := s[nodeId].level + levelDiff, path := newPath)] else s;
    map k | k in s0 :: if Extends(oldPath, s0[k].path) then Shifted(s0[k], levelDiff, oldPath, newPath) else s0[k]
  }

  /** The subtree rewrite changes only `level` and `path`: ids, payload and parent links stay. */
  lemma RebasedKeepsRows(s: Store, nodeId: Id, levelDiff: int, oldPath: Path, newPath: Path)
    ensures var t := Rebased(s, nodeId, levelDiff, oldPath, newPath);
      forall k {:trigger t[k]} :: k in s ==>
        t[k].id == s[k].id && t[k].name == s[k].name && t[k].locationNumber == s[k].locationNumber &&
        t[k].area == s[k].area && t[k].parentId == s[k].parentId
  {
  }

  /**
   * What the subtree rewrite does to levels and paths: the row itself gets
   * `newPath`, every row below `oldPath` has that prefix replaced, and every
   * other row is untouched.
   */
  lemma RebasedEffects(s: Store, nodeId: Id, levelDiff: int, oldPath: Path, newPath: Path)
    ensures var t := Rebased(s, nodeId, levelDiff, oldPath, newPath);
      nodeId in s && !Extends(oldPath, newPath) ==>
        t[nodeId].level == s[nodeId].level + levelDiff && t[nodeId].path == newPath
    ensures var t := Rebased(s, nodeId, levelDiff, oldPath, newPath);
      forall k {:trigger t[k]} :: k in s && k != nodeId && Extends(oldPath, s[k].path) ==>
        t[k].level == s[k].level + levelDiff && t[k].path == Rebase(s[k].path, oldPath, newPath)
    ensures var t := Rebased(s, nodeId, levelDiff, oldPath, newPath);
      forall k {:trigger t[k]} :: k in s && k != nodeId && !Extends(oldPath, s[k].path) ==> t[k] == s[k]
  {
  }

  /** A store together with the value or error an operation returned. */
  datatype Outcome<T> = Outcome(result: Result<T>, store: Store)

  /** The update request asks for a different, non-null parent: the guard of the cycle check and cascade. */
  predicate RequestsMove(loc: Location, dto: UpdateLocationDto)
  {
    dto.parentId.Given? && Some(dto.parentId.id) != loc.parentId
  }

  /**
   * `update` as the service performs it. The row loaded at the start keeps
   * its old `level` and `path` in memory; after the cascade, saving it with
   * the request's properties assigned writes those old values back.
   */
  ghost function AsWrittenUpdate(s: Store, id: Id, dto: UpdateLocationDto): (o: Outcome<Location>)
    ensures o.result.Err? ==> o.store == s
    ensures id !in s ==> o.result == Err(LocationNotFound(id))
    ensures o.result.Ok? ==>
      id in s && o.store.Keys == s.Keys && o.store[id] == o.result.value &&
      o.result.value.level == s[id].level && o.result.value.path == s[id].path &&
      o.result.value.parentId == Assign(s[id], dto).parentId
  {
    if id !in s then Outcome(Err(LocationNotFound(id)), s)
    else
      var loc := s[id];
      if RequestsMove(loc, dto) then
        var p := dto.parentId.id;
        if p == id || Reaches(s, Some(p), id) then Outcome(Err(MovedUnderDescendant), s)
        else if p !in s then Outcome(Err(LocationNotFound(p)), s)
        else
          var moved := Rebased(s, id, s[p].level + 1 - loc.level, loc.path, s[p].path + [id]);
          Outcome(Ok(Assign(loc, dto)), moved[id := Assign(loc, dto)])
      else
        Outcome(Ok(Assign(loc, dto)), s[id := Assign(loc, dto)])
  }

  /** The level a row re-linked under `np` should have. */
  function TargetLevel(s: Store, np: Option<Id>): int
    requires np.None? || np.value in s
  {
    if np.None? then 0 else s[np.value].level + 1
  }

  /** The path a row `n` re-linked under `np` should have. */
  function TargetPath(s: Store, n: Id, np: Option<Id>): Path
    requires np.None? || np.value in s
  {
    if np.None? then [n] else s[np.value].path + [n]
  }

  /** The subtree rewrite that re-links row `n` under `np`. */
  function Cascade(s: Store, n: Id, np: Option<Id>): Store
    requires n in s && (np.None? || np.value in s)
  {
    Rebased(s, n, TargetLevel(s, np) - s[n].level, s[n].path, TargetPath(s, n, np))
  }

  /**
   * The re-link step of `update` as intended: a new parent must be stored
   * and must not be the row or lie below it; then the row's subtree is
   * cascaded under it, or to the top when the new parent is null.
   */
  ghost function IntendedRelink(s: Store, n: Id, np: Option<Id>): (o: Outcome<()>)
    requires n in s
    ensures o.result.Err? ==> o.store == s
    ensures o.result.Ok? <==> np.None? || (np.value in s && np.value != n && !Reaches(s, np, n))
    ensures o.store.Keys == s.Keys
  {
    if np.Some? && (np.value == n || Reaches(s, np, n)) then Outcome(Err(MovedUnderDescendant), s)
    else if np.Some? && np.value !in s then Outcome(Err(LocationNotFound(np.value)), s)
    else Outcome(Ok(()), Cascade(s, n, np))
  }

  /** A store produced by the cascade under an admissible new parent is the re-link step's result. */
  lemma RelinkOutcome(s: Store, n: Id, np: Option<Id>, loc: Location, t: Store)
    requires n in s && loc == s[n]
    requires np.None? || (np.value in s && np.value != n && !Reaches(s, np, n))
    requires t == Rebased(s, n, TargetLevel(s, np) - loc.level, loc.path, TargetPath(s, n, np))
    ensures IntendedRelink(s, n, np) == Outcome(Ok(()), t)
  {
  }

  /**
   * `update` as evidently intended: every change of `parentId`, to another
   * row or to null, is checked and cascaded, and the row is saved with the
   * `level` and `path` the cascade gave it.
   */
  ghost function IntendedUpdate(s: Store, id: Id, dto: UpdateLocationDto): (o: Outcome<Location>)
    ensures o.result.Err? ==> o.store == s
    ensures id !in s ==> o.result == Err(LocationNotFound(id))
    ensures o.result.Ok? ==>
      id in s && o.store.Keys == s.Keys && o.store[id] == o.result.value &&
      o.result.value.parentId == Assign(s[id], dto).parentId
  {
    if id !in s then Outcome(Err(LocationNotFound(id)), s)
    else
      var loc := s[id];
      var np := Assign(loc, dto).parentId;
      if np == loc.parentId then
        Outcome(Ok(Assign(loc, dto)), s[id := Assign(loc, dto)])
      else
        var relinked := IntendedRelink(s, id, np);
        if relinked.result.Err? then Outcome(Err(relinked.result.failure), s)
        else
          var saved := Assign(relinked.store[id], dto);
          Outcome(Ok(saved), relinked.store[id := saved])
  }

  /** A store produced by the cascade after the as-written checks pass is the as-written update's store before the save. */
  lemma AsWrittenMoveOutcome(s: Store, id: Id, dto: UpdateLocationDto, loc: Location, parent: Location, t: Store)
    requires id in s && loc == s[id] && RequestsMove(loc, dto)
    requires dto.parentId.id in s && parent == s[dto.parentId.id]
    requires dto.parentId.id != id && !Reaches(s, Some(dto.parentId.id), id)
    requires t == Rebased(s, id, parent.level + 1 - loc.level, loc.path, parent.path + [id])
    ensures AsWrittenUpdate(s, id, dto) == Outcome(Ok(Assign(loc, dto)), t[id := Assign(loc, dto)])
  {
  }

  // ---------------------------------------------------------------------
  // Both versions keep the parent links acyclic

  /** The cascade changes no row's id or parent. */
  lemma RelinkKeepsLinks(s: Store, n: Id, np: Option<Id>)
    requires WellKeyed(s) && n in s
    ensures var t := IntendedRelink(s, n, np).store;
      SameLinksExcept(s, t, n) && WellKeyed(t) && t[n].parentId == s[n].parentId
  {
    if IntendedRelink(s, n, np).result.Ok? {
      RebasedKeepsRows(s, n, TargetLevel(s, np) - s[n].level, s[n].path, TargetPath(s, n, np));
    }
  }

  /** The re-link step on its own keeps the store well-formed: the cascade rewrites no parent link. */
  lemma RelinkStepKeepsWellformed(s: Store, n: Id, np: Option<Id>)
    requires Wellformed(s) && n in s
    ensures Wellformed(IntendedRelink(s, n, np).store)
  {
    var t := IntendedRelink(s, n, np).store;
    RelinkKeepsLinks(s, n, np);
    AcyclicNoReturn(s, n);
    RelinkKeepsWellformed(s, t, n);
  }

  /** Saving row `n` of a store whose links differ from `s` only at `n` keeps that so. */
  lemma SaveKeepsLinks(s: Store, t: Store, n: Id, loc: Location)
    requires SameLinksExcept(s, t, n) && WellKeyed(t) && n in t && loc.id == n
    ensures SameLinksExcept(s, t[n := loc], n) && WellKeyed(t[n := loc])
  {
  }

  /** The update as performed never creates a cycle, a dangling parent or a mis-keyed row. */
  lemma AsWrittenUpdateKeepsWellformed(s: Store, id: Id, dto: UpdateLocationDto)
    requires Wellformed(s)
    ensures Wellformed(AsWrittenUpdate(s, id, dto).store)
  {
    var o := AsWrittenUpdate(s, id, dto);
    if o.result.Ok? {
      var np := o.store[id].parentId;
      if np == s[id].parentId {
        AcyclicNoReturn(s, id);
      }
      RelinkKeepsWellformed(s, o.store, id);
    }
  }

  /** The intended update keeps the store well-formed as well. */
  lemma IntendedUpdateKeepsWellformed(s: Store, id: Id, dto: UpdateLocationDto)
    requires Wellformed(s)
    ensures Wellformed(IntendedUpdate(s, id, dto).store)
  {
    var o := IntendedUpdate(s, id, dto);
    if o.result.Ok? {
      var loc := s[id];
      var np := Assign(loc, dto).parentId;
      if np == loc.parentId {
        AcyclicNoReturn(s, id);
      } else {
        var moved := IntendedRelink(s, id, np).store;
        RelinkKeepsLinks(s, id, np);
        SaveKeepsLinks(s, moved, id, Assign(moved[id], dto));
      }
      RelinkKeepsWellformed(s, o.store, id);
    }
  }

  // ---------------------------------------------------------------------
  // The intended update keeps levels and paths consistent

  /** A path one id longer than `qp` lies below `p` exactly when `p` is `qp` or `qp` already lies below `p`. */
  lemma ExtendsChild(p: Path, qp: Path, k: Id)
    ensures Extends(p, qp + [k]) <==> (|p| > 0 && p == qp) || Extends(p, qp)
  {
    assert |p| <= |qp| ==> (qp + [k])[..|p|] == qp[..|p|];
    assert qp[..|qp|] == qp;
  }

  /** The new path of a moved row never lies below its old path unless the new parent lay below it. */
  lemma TargetNotBelow(s: Store, n: Id, np: Option<Id>)
    requires Consistent(s) && n in s
    requires np.None? || (np.value in s && !IsPrefix(s[n].path, s[np.value].path))
    ensures !Extends(s[n].path, TargetPath(s, n, np))
  {
    PathEndsWithId(s, n);
    if np.Some? {
      ExtendsChild(s[n].path, s[np.value].path, n);
    }
  }

  /** After the move, the moved row agrees with its new parent. */
  lemma MovedRowConsistent(s: Store, n: Id, np: Option<Id>, saved: Location)
    requires Consistent(s) && n in s
    requires np.None? || (np.value in s && !IsPrefix(s[n].path, s[np.value].path))
    requires saved.id == n && saved.parentId == np
    requires saved.level == TargetLevel(s, np) && saved.path == TargetPath(s, n, np)
    ensures var t := Rebased(s, n, TargetLevel(s, np) - s[n].level, s[n].path, TargetPath(s, n, np))[n := saved];
      NodeConsistent(t, n)
  {
    if np.Some? {
      var p := np.value;
      assert IsPrefix(s[n].path, s[n].path);
      assert p != n;
      assert !Extends(s[n].path, s[p].path);
    }
  }

  /** A child row whose id, level and path follow a stored parent is consistent. */
  lemma ChildLinkConsistent(t: Store, k: Id, q: Id)
    requires k in t && q in t && t[k].id == k && t[k].parentId == Some(q)
    requires t[k].level == t[q].level + 1 && t[k].path == t[q].path + [k]
    ensures NodeConsistent(t, k)
  {
  }

  /** After the move, every row of the moved subtree agrees with its parent. */
  lemma DescendantRowConsistent(s: Store, n: Id, np: Option<Id>, saved: Location, k: Id)
    requires Consistent(s) && n in s && k in s && k != n
    requires np.None? || (np.value in s && !IsPrefix(s[n].path, s[np.value].path))
    requires saved.id == n && saved.parentId == np
    requires saved.level == TargetLevel(s, np) && saved.path == TargetPath(s, n, np)
    requires Extends(s[n].path, s[k].path)
    ensures var t := Rebased(s, n, TargetLevel(s, np) - s[n].level, s[n].path, TargetPath(s, n, np))[n := saved];
      NodeConsistent(t, k)
  {
    var oldPath, newPath := s[n].path, TargetPath(s, n, np);
    var d := TargetLevel(s, np) - s[n].level;
    var t := Rebased(s, n, d, oldPath, newPath)[n := saved];
    assert s[k].parentId.Some? by {
      assert NodeConsistent(s, k);
    }
    var q := s[k].parentId.value;
    assert q in s && s[k].id == k && s[k].level == s[q].level + 1 && s[k].path == s[q].path + [k] by {
      assert NodeConsistent(s, k);
    }
    var below := s[k].path[|oldPath|..];
    assert t[k] == s[k].(level := s[k].level + d, path := newPath + below);
    if q == n {
      assert below == [k];
      assert t[q] == saved;
    } else {
      assert Extends(oldPath, s[q].path) by {
        ExtendsChild(oldPath, s[q].path, k);
        if oldPath == s[q].path {
          PathsAreUnique(s, q, n);
        }
      }
      assert q in s && s[q].id == q by {
        assert NodeConsistent(s, q);
      }
      assert t[q] == s[q].(level := s[q].level + d, path := newPath + s[q].path[|oldPath|..]);
      assert below == s[q].path[|oldPath|..] + [k];
    }
    ChildLinkConsistent(t, k, q);
  }

  /** After the move, every row outside the moved subtree is untouched and still agrees with its parent. */
  lemma OtherRowConsistent(s: Store, n: Id, np: Option<Id>, saved: Location, k: Id)
    requires Consistent(s) && n in s && k in s && k != n
    requires np.None? || (np.value in s && !IsPrefix(s[n].path, s[np.value].path))
    requires saved.id == n && saved.parentId == np
    requires saved.level == TargetLevel(s, np) && saved.path == TargetPath(s, n, np)
    requires !Extends(s[n].path, s[k].path)
    ensures var t := Rebased(s, n, TargetLevel(s, np) - s[n].level, s[n].path, TargetPath(s, n, np))[n := saved];
      NodeConsistent(t, k)
  {
    assert NodeConsistent(s, k);
    PathEndsWithId(s, n);
    if s[k].parentId.Some? {
      var q := s[k].parentId.value;
      ExtendsChild(s[n].path, s[q].path, k);
      assert s[q].path != s[n].path;
      assert q != n;
    }
  }

  /**
   * The heart of the re-parenting: moving row `n` under a null parent or
   * under a row outside its subtree, with the cascade and a save of the
   * rewritten row, keeps every level and path consistent.
   */
  lemma MoveKeepsConsistent(s: Store, n: Id, np: Option<Id>, saved: Location)
    requires Consistent(s) && n in s
    requires np.None? || (np.value in s && !IsPrefix(s[n].path, s[np.value].path))
    requires saved.id == n && saved.parentId == np
    requires saved.level == TargetLevel(s, np) && saved.path == TargetPath(s, n, np)
    ensures Consistent(Rebased(s, n, TargetLevel(s, np) - s[n].level, s[n].path, TargetPath(s, n, np))[n := saved])
  {
    var t := Rebased(s, n, TargetLevel(s, np) - s[n].level, s[n].path, TargetPath(s, n, np))[n := saved];
    forall k | k in t ensures NodeConsistent(t, k) {
      if k == n {
        MovedRowConsistent(s, n, np, saved);
      } else if Extends(s[n].path, s[k].path) {
        DescendantRowConsistent(s, n, np, saved, k);
      } else {
        OtherRowConsistent(s, n, np, saved, k);
      }
    }
  }

  /** The intended update keeps a consistent store consistent. */
  lemma IntendedUpdateKeepsConsistent(s: Store, id: Id, dto: UpdateLocationDto)
    requires Consistent(s)
    ensures Consistent(IntendedUpdate(s, id, dto).store)
  {
    var o := IntendedUpdate(s, id, dto);
    if o.result.Ok? {
      var loc := s[id];
      assert NodeConsistent(s, id);
      var np := Assign(loc, dto).parentId;
      if np == loc.parentId {
        PayloadEditKeepsConsistent(s, Assign(loc, dto));
      } else {
        if np.Some? {
          PathEncodesAncestry(s, np.value, id);
        }
        TargetNotBelow(s, id, np);
        var moved := Rebased(s, id, TargetLevel(s, np) - loc.level, loc.path, TargetPath(s, id, np));
        MoveKeepsConsistent(s, id, np, Assign(moved[id], dto));
      }
    }
  }

  /**
   * In a consistent store the cycle check rejects exactly the moves under the
   * row itself or under a row whose path lies below the moved row's path,
   * and the store is left unchanged.
   */
  lemma UpdateRejectsMoveIntoOwnSubtree(s: Store, id: Id, dto: UpdateLocationDto)
    requires Consistent(s) && id in s && RequestsMove(s[id], dto) && dto.parentId.id in s
    ensures var o := AsWrittenUpdate(s, id, dto);
      (o.result == Err(MovedUnderDescendant)) == IsPrefix(s[id].path, s[dto.parentId.id].path)
    ensures var o := AsWrittenUpdate(s, id, dto);
      o.result == Err(MovedUnderDescendant) ==> o.store == s
  {
    var p := dto.parentId.id;
    PathEncodesAncestry(s, p, id);
    assert p == id ==> ReachesWithin(s, Some(p), id, 0);
  }

  /** When the request leaves the parent as it is, the update as performed keeps a consistent store consistent. */
  lemma AsWrittenEditKeepsConsistent(s: Store, id: Id, dto: UpdateLocationDto)
    requires Consistent(s) && id in s && Assign(s[id], dto).parentId == s[id].parentId
    ensures Consistent(AsWrittenUpdate(s, id, dto).store)
  {
    assert NodeConsistent(s, id);
    PayloadEditKeepsConsistent(s, Assign(s[id], dto));
  }

  // ---------------------------------------------------------------------
  // Two inputs on which the update as performed breaks consistency

  const RootA: Id := "a"
  const RootB: Id := "b"
  const ChildC: Id := "c"

  /** Two roots `a` and `b`, and `c` under `a`. */
  function SampleStore(): (s: Store)
    ensures Consistent(s)
  {
    var a := Location(RootA, "A", "1", 1.0, None, 0, [RootA]);
    var b := Location(RootB, "B", "2", 1.0, None, 0, [RootB]);
    var c := Location(ChildC, "C", "3", 1.0, Some(RootA), 1, [RootA, ChildC]);
    var s := map[RootA := a, RootB := b, ChildC := c];
    assert NodeConsistent(s, RootA) && NodeConsistent(s, RootB) && NodeConsistent(s, ChildC);
    s
  }

  /**
   * Moving `c` from `a` to `b`: the cascade gives `c` the path `[b, c]`, but
   * the save that follows writes the stale level and path `[a, c]` back, so
   * `c` no longer agrees with its new parent. The intended update leaves
   * `c` at `[b, c]` and the store consistent.
   */
  lemma StaleMoveCounterexample()
    ensures var dto := UpdateLocationDto(None, None, None, Given(RootB));
      var o := AsWrittenUpdate(SampleStore(), ChildC, dto);
      o.result.Ok? && o.store[ChildC].parentId == Some(RootB) && o.store[ChildC].path == [RootA, ChildC] &&
      !Consistent(o.store)
    ensures var dto := UpdateLocationDto(None, None, None, Given(RootB));
      var o := IntendedUpdate(SampleStore(), ChildC, dto);
      o.result.Ok? && o.store[ChildC].parentId == Some(RootB) && o.store[ChildC].path == [RootB, ChildC] &&
      Consistent(o.store)
  {
    var s := SampleStore();
    var dto := UpdateLocationDto(None, None, None, Given(RootB));
    PathEncodesAncestry(s, RootB, ChildC);
    assert !IsPrefix(s[ChildC].path, s[RootB].path);
    var o := AsWrittenUpdate(s, ChildC, dto);
    assert o.store[ChildC].path == [RootA, ChildC];
    assert !NodeConsistent(o.store, ChildC) by {
      assert !Extends(s[ChildC].path, s[RootB].path);
      assert o.store[RootB].path == [RootB];
      assert ([RootB] + [ChildC])[0] != RootA;
    }
    IntendedUpdateKeepsConsistent(s, ChildC, dto);
    TargetNotBelow(s, ChildC, Some(RootB));
  }

  /**
   * Sending `parentId: null` for `c`: the guard skips the cascade, so `c`
   * becomes a root with level 1 and path `[a, c]`. The intended update makes
   * it a root with level 0 and path `[c]`.
   */
  lemma NullParentCounterexample()
    ensures var dto := UpdateLocationDto(None, None, None, Null);
      var o := AsWrittenUpdate(SampleStore(), ChildC, dto);
      o.result.Ok? && o.store[ChildC].parentId.None? && o.store[ChildC].level == 1 &&
      !Consistent(o.store)
    ensures var dto := UpdateLocationDto(None, None, None, Null);
      var o := IntendedUpdate(SampleStore(), ChildC, dto);
      o.result.Ok? && o.store[ChildC].parentId.None? && o.store[ChildC].level == 0 &&
      o.store[ChildC].path == [ChildC] && Consistent(o.store)
  {
    var s := SampleStore();
    var dto := UpdateLocationDto(None, None, None, Null);
    var o := AsWrittenUpdate(s, ChildC, dto);
    assert !NodeConsistent(o.store, ChildC);
    IntendedUpdateKeepsConsistent(s, ChildC, dto);
    TargetNotBelow(s, ChildC, None);
  }
}
