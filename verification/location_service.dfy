/**
 * `LocationService` over an in-memory `locations` table. Each repository
 * call becomes a step on the `store` field; the service's awaits run one
 * after another, so every operation is a sequence of such steps.
 */
module Service {
  import opened Wrappers
  import opened MaterializedPath
  import opened LocationStore
  import opened TreeInvariants
  import opened SubtreeMove
  import opened LocationTree

  /** An upper bound on the lengths of the ids in `used`. */
  ghost function LongestId(used: set<Id>): (n: nat)
    ensures forall u :: u in used ==> |u| <= n
    decreases used
  {
    if used == {} then 0
    else
      var u :| u in used;
      var rest := LongestId(used - {u});
      if |u| <= rest then rest else |u|
  }

  /** The store can always hand out an id it has not used: the uuid generator's guarantee. */
  lemma FreshIdExists(used: set<Id>)
    ensures exists id: Id :: id !in used
  {
    var zeros := seq(LongestId(used) + 1, _ => '0');
    assert ValidId(zeros);
    var id: Id := zeros;
    assert id !in used;
  }

  class LocationService {
    /** The `locations` table behind the repository. */
    var store: Store

    /** What every operation keeps: rows under their own ids, parents that exist, no cycles. */
    ghost predicate Valid()
      reads this
    {
      Wellformed(store)
    }

    constructor()
      ensures Valid() && Consistent(store) && store == map[]
    {
      store := map[];
    }

    // -------------------------------------------------------------------
    // Repository steps

    /** `repository.save`: inserts the row, or overwrites the row with its id. */
    method Save(loc: Location)
      modifies this
      ensures store == old(store)[loc.id := loc]
    {
      store := store[loc.id := loc];
    }

    /**
     * `repository.find({ where })`: the stored rows the clause selects, each
     * once, in an order the repository chooses.
     */
    method Find(w: Where) returns (rows: seq<Location>)
      requires Valid()
      ensures forall r :: r in rows ==> r.id in store && store[r.id] == r && Matches(w, r)
      ensures IdsOf(rows) == Selected(store, w)
      ensures DistinctIds(rows)
    {
      rows := [];
      var pending := store.Keys;
      while pending != {}
        invariant pending <= store.Keys
        invariant forall r :: r in rows ==> r.id in store && store[r.id] == r && Matches(w, r) && r.id !in pending
        invariant IdsOf(rows) == Selected(store, w) - pending
        invariant DistinctIds(rows)
        decreases pending
      {
        var k :| k in pending;
        var loc := store[k];
        assert loc.id == k;
        if Matches(w, loc) {
          assert k !in IdsOf(rows);
          AppendRow(rows, loc);
          rows := rows + [loc];
        }
        pending := pending - {k};
      }
    }

    // -------------------------------------------------------------------
    // Lookups

    /** `findOne`: the row, or NotFound. */
    method FindOne(id: Id) returns (r: Result<Location>)
      ensures id in store ==> r == Ok(store[id])
      ensures id !in store ==> r == Err(LocationNotFound(id))
    {
      if id in store {
        r := Ok(store[id]);
      } else {
        r := Err(LocationNotFound(id));
      }
    }

    /** `getParentPath`: the path of the row `parentId`, or NotFound. */
    method GetParentPath(parentId: Id) returns (r: Result<Path>)
      ensures r.Ok? <==> parentId in store
      ensures r.Ok? ==> r.value == store[parentId].path
      ensures r.Err? ==> r.failure == LocationNotFound(parentId)
    {
      var parent := FindOne(parentId);
      if parent.Err? {
        return Err(parent.failure);
      }
      r := Ok(parent.value.path);
    }

    /** `findAll`: every stored row once (ordered by path in the database). */
    method FindAll() returns (rows: seq<Location>)
      requires Valid()
      ensures forall r :: r in rows ==> r.id in store && store[r.id] == r
      ensures IdsOf(rows) == store.Keys
      ensures DistinctIds(rows)
    {
      rows := Find(Everything);
    }

    /** `getChildren`: the rows whose parent is `id`. */
    method GetChildren(id: Id) returns (rows: seq<Location>)
      requires Valid()
      ensures forall r :: r in rows ==> r.id in store && store[r.id] == r && r.parentId == Some(id)
      ensures IdsOf(rows) == ChildrenOf(store, id)
      ensures DistinctIds(rows)
    {
      rows := Find(ParentIs(Some(id)));
    }

    /** `findChildren`: the same query as `getChildren`. */
    method FindChildren(id: Id) returns (rows: seq<Location>)
      requires Valid()
      ensures forall r :: r in rows ==> r.id in store && store[r.id] == r && r.parentId == Some(id)
      ensures IdsOf(rows) == ChildrenOf(store, id)
      ensures DistinctIds(rows)
    {
      rows := GetChildren(id);
    }

    // -------------------------------------------------------------------
    // create

    /**
     * `create`: checks the parent, saves the row with a fresh id and its
     * level, then saves it again with its path.
     */
    method Create(dto: CreateLocationDto) returns (r: Result<Location>)
      requires Valid()
      modifies this
      ensures Valid()
      ensures r.Err? <==> dto.parentId.Some? && dto.parentId.value !in old(store)
      ensures r.Err? ==> r.failure == ParentNotFound(dto.parentId.value) && store == old(store)
      ensures r.Ok? ==> r.value.id !in old(store) && store == old(store)[r.value.id := r.value]
      ensures r.Ok? ==>
        r.value.name == dto.name && r.value.locationNumber == dto.locationNumber &&
        r.value.area == dto.area && r.value.parentId == dto.parentId
      ensures r.Ok? && dto.parentId.None? ==> r.value.level == 0 && r.value.path == [r.value.id]
      ensures r.Ok? && dto.parentId.Some? ==>
        r.value.level == old(store)[dto.parentId.value].level + 1 &&
        r.value.path == old(store)[dto.parentId.value].path + [r.value.id]
      ensures old(Consistent(store)) ==> Consistent(store)
    {
      var level := 0;
      if dto.parentId.Some? {
        var parent := FindOne(dto.parentId.value);
        if parent.Err? {
          return Err(ParentNotFound(dto.parentId.value));
        }
        level := parent.value.level + 1;
      }
      FreshIdExists(store.Keys);
      var id: Id :| id !in store;
      var location := Location(id, dto.name, dto.locationNumber, dto.area, dto.parentId, level, []);
      ghost var before := store;
      Save(location);
      var path: Path;
      if dto.parentId.Some? {
        var parentPath := GetParentPath(dto.parentId.value);
        path := parentPath.value + [id];
      } else {
        path := [id];
      }
      location := location.(path := path);
      Save(location);
      r := Ok(location);
      assert store == before[id := location];
      InsertKeepsWellformed(before, location);
      if Consistent(before) {
        InsertKeepsConsistent(before, location);
      }
    }

    // -------------------------------------------------------------------
    // update

    /**
     * `wouldCreateCycle`: walks up the parent chain from `newParentId`,
     * stopping at a root or at a missing row, and reports whether it meets
     * `nodeId`.
     */
    method WouldCreateCycle(nodeId: Id, newParentId: Id) returns (cycle: bool)
      requires Valid()
      ensures cycle <==> newParentId == nodeId || Reaches(store, Some(newParentId), nodeId)
    {
      if nodeId == newParentId {
        return true;
      }
      var current: Option<Id> := Some(newParentId);
      assert ChainEnds(store, current) by {
        if newParentId !in store {
          assert EndsWithin(store, current, 0);
        }
      }
      ghost var fuel: nat :| EndsWithin(store, current, fuel);
      while current.Some?
        invariant EndsWithin(store, current, fuel)
        invariant Reaches(store, Some(newParentId), nodeId) <==> Reaches(store, current, nodeId)
        decreases fuel
      {
        var x := current.value;
        if x !in store {
          break;
        }
        if x == nodeId {
          assert ReachesWithin(store, current, nodeId, 0);
          return true;
        }
        ReachesStep(store, x, nodeId);
        current := store[x].parentId;
        fuel := fuel - 1;
      }
      return false;
    }

    /**
     * `updateSubtreeLevelAndPath`: one statement for the row itself, one for
     * every row whose path lies below `oldPath`.
     */
    method UpdateSubtreeLevelAndPath(nodeId: Id, levelDiff: int, oldPath: Path, newPath: Path)
      modifies this
      ensures store == Rebased(old(store), nodeId, levelDiff, oldPath, newPath)
    {
      if nodeId in store {
        store := store[nodeId := store[nodeId].(level := store[nodeId].level + levelDiff, path := newPath)];
      }
      store := map k | k in store ::
        if Extends(oldPath, store[k].path) then Shifted(store[k], levelDiff, oldPath, newPath) else store[k];
    }

    /**
     * `update` as written: a change to another parent is checked for cycles
     * and cascaded, then the row loaded at the start, with the request's
     * properties assigned, is saved.
     */
    method Update(id: Id, dto: UpdateLocationDto) returns (r: Result<Location>)
      requires Valid()
      modifies this
      ensures Valid()
      ensures Outcome(r, store) == AsWrittenUpdate(old(store), id, dto)
    {
      var found := FindOne(id);
      if found.Err? {
        return found;
      }
      var location := found.value;
      if RequestsMove(location, dto) {
        var p := dto.parentId.id;
        var cycle := WouldCreateCycle(id, p);
        if cycle {
          return Err(MovedUnderDescendant);
        }
        var newParent := FindOne(p);
        if newParent.Err? {
          return Err(newParent.failure);
        }
        UpdateSubtreeLevelAndPath(id, newParent.value.level + 1 - location.level, location.path,
          newParent.value.path + [id]);
        AsWrittenMoveOutcome(old(store), id, dto, location, newParent.value, store);
      }
      location := Assign(location, dto);
      Save(location);
      r := Ok(location);
      AsWrittenUpdateKeepsWellformed(old(store), id, dto);
    }

    /**
     * The re-link step of `update` as intended: refuses a new parent that is
     * the row itself, one of its descendants or a missing row, and otherwise
     * cascades the row's subtree under the new parent, or to the top for null.
     */
    method Relink(id: Id, newParentId: Option<Id>) returns (r: Result<()>)
      requires Valid() && id in store
      modifies this
      ensures Valid()
      ensures Outcome(r, store) == IntendedRelink(old(store), id, newParentId)
    {
      var location := store[id];
      if newParentId.Some? {
        var cycle := WouldCreateCycle(id, newParentId.value);
        if cycle {
          return Err(MovedUnderDescendant);
        }
        var newParent := FindOne(newParentId.value);
        if newParent.Err? {
          return Err(newParent.failure);
        }
      }
      UpdateSubtreeLevelAndPath(id, TargetLevel(store, newParentId) - location.level, location.path,
        TargetPath(store, id, newParentId));
      RelinkOutcome(old(store), id, newParentId, location, store);
      RelinkStepKeepsWellformed(old(store), id, newParentId);
      r := Ok(());
    }

    /**
     * `update` as intended: every change of parent, to a row or to null, is
     * checked and cascaded, and the row is re-read after the cascade before
     * the request's properties are assigned and it is saved.
     */
    method UpdateIntended(id: Id, dto: UpdateLocationDto) returns (r: Result<Location>)
      requires Valid()
      modifies this
      ensures Valid()
      ensures Outcome(r, store) == IntendedUpdate(old(store), id, dto)
      ensures old(Consistent(store)) ==> Consistent(store)
    {
      var found := FindOne(id);
      if found.Err? {
        return found;
      }
      var location := found.value;
      var newParentId := Assign(location, dto).parentId;
      if newParentId != location.parentId {
        var relinked := Relink(id, newParentId);
        if relinked.Err? {
          return Err(relinked.failure);
        }
        var reloaded := FindOne(id);
        location := reloaded.value;
      }
      location := Assign(location, dto);
      Save(location);
      r := Ok(location);
      IntendedUpdateKeepsWellformed(old(store), id, dto);
      if old(Consistent(store)) {
        IntendedUpdateKeepsConsistent(old(store), id, dto);
      }
    }

    // -------------------------------------------------------------------
    // remove

    /** `remove`: deletes a row that exists and has no children. */
    method Remove(id: Id) returns (r: Result<()>)
      requires Valid()
      modifies this
      ensures Valid()
      ensures id !in old(store) ==> r == Err(LocationNotFound(id)) && store == old(store)
      ensures id in old(store) && ChildrenOf(old(store), id) != {} ==> r == Err(HasChildren) && store == old(store)
      ensures id in old(store) && ChildrenOf(old(store), id) == {} ==> r == Ok(()) && store == old(store) - {id}
      ensures old(Consistent(store)) ==> Consistent(store)
    {
      var location := FindOne(id);
      if location.Err? {
        return Err(location.failure);
      }
      var children := GetChildren(id);
      if |children| > 0 {
        assert children[0].id in ChildrenOf(store, id);
        return Err(HasChildren);
      }
      store := store - {id};
      r := Ok(());
      RemoveKeepsWellformed(old(store), id);
      if old(Consistent(store)) {
        RemoveKeepsConsistent(old(store), id);
      }
    }

    // -------------------------------------------------------------------
    // getTree

    /** `getTree`: every root with its subtree attached. */
    method GetTree() returns (forest: seq<TreeNode>)
      requires Valid()
      ensures IsForestOf(store, forest)
      ensures ForestIds(forest) == store.Keys
    {
      var roots := Find(ParentIs(None));
      forest := [];
      for i := 0 to |roots|
        invariant |forest| == i
        invariant forall j :: 0 <= j < i ==> forest[j].location == roots[j] && IsTreeOf(store, forest[j])
      {
        var tree := BuildTree(roots[i]);
        forest := forest + [tree];
      }
      assert TopIds(forest) == IdsOf(roots) by {
        forall t | t in forest ensures t.location.id in IdsOf(roots) {
          var j :| 0 <= j < |forest| && forest[j] == t;
          assert roots[j] in roots;
        }
        forall r | r in roots ensures r.id in TopIds(forest) {
          var j :| 0 <= j < |roots| && roots[j] == r;
          assert forest[j] in forest;
        }
      }
      ForestCoversStore(store, forest);
    }

    /** `buildTree`: the node with its children, each with its own subtree attached. */
    method BuildTree(node: Location) returns (tree: TreeNode)
      requires Valid() && node.id in store && store[node.id] == node
      ensures tree.location == node && IsTreeOf(store, tree)
      decreases Descendants(store, node.id)
    {
      var children := Find(ParentIs(Some(node.id)));
      var subtrees: seq<TreeNode> := [];
      for i := 0 to |children|
        invariant |subtrees| == i
        invariant forall j :: 0 <= j < i ==> subtrees[j].location == children[j] && IsTreeOf(store, subtrees[j])
      {
        ChildHasFewerDescendants(store, node.id, children[i].id);
        var subtree := BuildTree(children[i]);
        subtrees := subtrees + [subtree];
      }
      tree := TreeNode(node, subtrees);
      assert TopIds(subtrees) == IdsOf(children) by {
        forall t | t in subtrees ensures t.location.id in IdsOf(children) {
          var j :| 0 <= j < |subtrees| && subtrees[j] == t;
          assert children[j] in children;
        }
        forall c | c in children ensures c.id in TopIds(subtrees) {
          var j :| 0 <= j < |children| && children[j] == c;
          assert subtrees[j] in subtrees;
        }
      }
    }
  }
}
