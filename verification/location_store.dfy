/**
 * The `locations` table as the service sees it: rows keyed by id, each
 * with a nullable `parentId`, a `level` and a materialized `path`. This
 * module states the tree invariants over such a store and proves the
 * facts about parent chains that the service's operations rely on.
 */
module LocationStore {
  import opened Wrappers
  import opened MaterializedPath

  /** The `decimal(10,2)` area column, carried as an uninterpreted magnitude. */
  type Area = real

  /** One row of the `locations` table (timestamps and relation properties are not modelled). */
  datatype Location = Location(
    id: Id,
    name: string,
    locationNumber: string,
    area: Area,
    parentId: Option<Id>,
    level: int,
    path: Path)

  datatype CreateLocationDto = CreateLocationDto(
    name: string,
    locationNumber: string,
    area: Area,
    parentId: Option<Id>)

  /** The `parentId` property of an update request: left out, sent as null, or an id. */
  datatype ParentField = Absent | Null | Given(id: Id)

  /** An update request: every property optional. */
  datatype UpdateLocationDto = UpdateLocationDto(
    name: Option<string>,
    locationNumber: Option<string>,
    area: Option<Area>,
    parentId: ParentField)

  /** The errors the service throws. */
  datatype Failure =
    | ParentNotFound(parentId: Id)   // NotFoundException from create
    | LocationNotFound(id: Id)       // NotFoundException from findOne
    | MovedUnderDescendant           // Error 'Cannot move a location to its own descendant'
    | HasChildren                    // Error 'Cannot delete a location that has children'

  datatype Result<T> = Ok(value: T) | Err(failure: Failure)

  type Store = map<Id, Location>

  /** `Object.assign(location, dto)`: each property the request carries overwrites the row's. */
  function Assign(loc: Location, dto: UpdateLocationDto): (r: Location)
    ensures r.id == loc.id && r.level == loc.level && r.path == loc.path
    ensures dto.name.Some? ==> r.name == dto.name.value
    ensures dto.name.None? ==> r.name == loc.name
    ensures dto.locationNumber.Some? ==> r.locationNumber == dto.locationNumber.value
    ensures dto.locationNumber.None? ==> r.locationNumber == loc.locationNumber
    ensures dto.area.Some? ==> r.area == dto.area.value
    ensures dto.area.None? ==> r.area == loc.area
    ensures dto.parentId.Absent? ==> r.parentId == loc.parentId
    ensures dto.parentId.Null? ==> r.parentId.None?
    ensures dto.parentId.Given? ==> r.parentId == Some(dto.parentId.id)
  {
    loc.(
      name := dto.name.GetOr(loc.name),
      locationNumber := dto.locationNumber.GetOr(loc.locationNumber),
      area := dto.area.GetOr(loc.area),
      parentId := match dto.parentId
                  case Absent => loc.parentId
                  case Null => None
                  case Given(p) => Some(p))
  }

  // ---------------------------------------------------------------------
  // Queries

  /** A `where` clause of the repository's `find`. */
  datatype Where = Everything | ParentIs(parent: Option<Id>)

  predicate Matches(w: Where, loc: Location)
  {
    match w
    case Everything => true
    case ParentIs(p) => loc.parentId == p
  }

  /** The ids of the rows a `find` with clause `w` selects. */
  function Selected(s: Store, w: Where): set<Id>
  {
    set k | k in s && Matches(w, s[k])
  }

  /** The direct children of `id`: the rows whose `parentId` is `id`. */
  function ChildrenOf(s: Store, id: Id): set<Id>
  {
    set k | k in s && s[k].parentId == Some(id)
  }

  /** The roots: the rows whose `parentId` is null. */
  function RootsOf(s: Store): set<Id>
  {
    set k | k in s && s[k].parentId.None?
  }

  function IdsOf(rows: seq<Location>): set<Id>
  {
    set r | r in rows :: r.id
  }

  predicate DistinctIds(rows: seq<Location>)
  {
    forall i, j :: 0 <= i < j < |rows| ==> rows[i].id != rows[j].id
  }

  /** Appending a row with a new id adds that id and keeps the ids distinct. */
  lemma AppendRow(rows: seq<Location>, loc: Location)
    requires DistinctIds(rows) && loc.id !in IdsOf(rows)
    ensures IdsOf(rows + [loc]) == IdsOf(rows) + {loc.id}
    ensures DistinctIds(rows + [loc])
  {
    forall i | 0 <= i < |rows| ensures rows[i].id != loc.id {
      assert rows[i] in rows;
    }
  }

  // ---------------------------------------------------------------------
  // Invariants

  /** Every row is stored under its own id. */
  predicate WellKeyed(s: Store)
  {
    forall k {:trigger s[k]} :: k in s ==> s[k].id == k
  }

  /** The ids that some row names as its parent. */
  function ParentIds(s: Store): set<Id>
  {
    set k | k in s && s[k].parentId.Some? :: s[k].parentId.value
  }

  /** Every non-null `parentId` names a stored row. */
  predicate ParentsExist(s: Store)
  {
    ParentIds(s) <= s.Keys
  }

  /** Row `k` agrees with its parent: a root has level 0 and path `[k]`, a child one level and one id more than its parent. */
  predicate NodeConsistent(s: Store, k: Id)
    requires k in s
  {
    var loc := s[k];
    loc.id == k &&
    match loc.parentId
    case None => loc.level == 0 && loc.path == [k]
    case Some(p) => p in s && loc.level == s[p].level + 1 && loc.path == s[p].path + [k]
  }

  /** `level` and `path` of every row agree with the parent chain. */
  predicate Consistent(s: Store)
  {
    forall k {:trigger NodeConsistent(s, k)} :: k in s ==> NodeConsistent(s, k)
  }

  /** Following `parentId` upward from `from` stops (at a null or a missing id) within `fuel` steps. */
  predicate EndsWithin(s: Store, from: Option<Id>, fuel: nat)
    decreases fuel
  {
    match from
    case None => true
    case Some(x) => x !in s || (fuel > 0 && EndsWithin(s, s[x].parentId, fuel - 1))
  }

  /** Following `parentId` upward from `from`, the stored row `target` is met within `fuel` steps. */
  predicate ReachesWithin(s: Store, from: Option<Id>, target: Id, fuel: nat)
    decreases fuel
  {
    match from
    case None => false
    case Some(x) => x in s && (x == target || (fuel > 0 && ReachesWithin(s, s[x].parentId, target, fuel - 1)))
  }

  /** `target` is `from` itself or one of its stored ancestors. */
  ghost predicate Reaches(s: Store, from: Option<Id>, target: Id)
  {
    exists fuel: nat :: ReachesWithin(s, from, target, fuel)
  }

  ghost predicate ChainEnds(s: Store, from: Option<Id>)
  {
    exists fuel: nat :: EndsWithin(s, from, fuel)
  }

  /** The parent links form no cycle: every upward walk stops. */
  ghost predicate Acyclic(s: Store)
  {
    forall k {:trigger ChainEnds(s, Some(k))} :: k in s ==> ChainEnds(s, Some(k))
  }

  /** What the service's operations keep (the level and path columns aside). */
  ghost predicate Wellformed(s: Store)
  {
    WellKeyed(s) && ParentsExist(s) && Acyclic(s)
  }

  // ---------------------------------------------------------------------
  // Parent chains

  lemma {:induction false} EndsWithinMono(s: Store, from: Option<Id>, f: nat, g: nat)
    requires EndsWithin(s, from, f) && f <= g
    ensures EndsWithin(s, from, g)
    decreases f
  {
    if from.Some? && from.value in s {
      EndsWithinMono(s, s[from.value].parentId, f - 1, g - 1);
    }
  }

  /** One step of the upward walk: below `n`, reaching `n` from `x` is reaching it from `x`'s parent. */
  lemma ReachesStep(s: Store, x: Id, n: Id)
    requires x in s && x != n
    ensures Reaches(s, Some(x), n) <==> Reaches(s, s[x].parentId, n)
  {
    if Reaches(s, Some(x), n) {
      var f: nat :| ReachesWithin(s, Some(x), n, f);
      assert ReachesWithin(s, s[x].parentId, n, f - 1);
    }
    if Reaches(s, s[x].parentId, n) {
      var f: nat :| ReachesWithin(s, s[x].parentId, n, f);
      assert ReachesWithin(s, Some(x), n, f + 1);
    }
  }

  lemma {:induction false} ReachesWithinTrans(s: Store, from: Option<Id>, m: Id, n: Id, g: nat)
    requires ReachesWithin(s, from, m, g) && Reaches(s, Some(m), n)
    ensures Reaches(s, from, n)
    decreases g
  {
    var x := from.value;
    if x != m && x != n {
      ReachesWithinTrans(s, s[x].parentId, m, n, g - 1);
      ReachesStep(s, x, n);
    } else if x == n {
      assert ReachesWithin(s, from, n, 0);
    }
  }

  /** An ancestor of an ancestor is an ancestor. */
  lemma ReachesTrans(s: Store, from: Option<Id>, m: Id, n: Id)
    requires Reaches(s, from, m) && Reaches(s, Some(m), n)
    ensures Reaches(s, from, n)
  {
    var g: nat :| ReachesWithin(s, from, m, g);
    ReachesWithinTrans(s, from, m, n, g);
  }

  /** A walk that stops within `f` steps from `from` also stops within `f` steps from any row it passes. */
  lemma {:induction false} EndsAlongChain(s: Store, from: Option<Id>, t: Id, g: nat, f: nat)
    requires ReachesWithin(s, from, t, g) && EndsWithin(s, from, f)
    ensures EndsWithin(s, Some(t), f)
    decreases g
  {
    var x := from.value;
    if x != t {
      EndsAlongChain(s, s[x].parentId, t, g - 1, f - 1);
      EndsWithinMono(s, Some(t), f - 1, f);
    }
  }

  lemma {:induction false} NoReturnWithin(s: Store, t: Id, g: nat, f: nat)
    requires t in s && ReachesWithin(s, s[t].parentId, t, g)
    ensures !EndsWithin(s, Some(t), f)
    decreases f
  {
    if f > 0 && EndsWithin(s, s[t].parentId, f - 1) {
      EndsAlongChain(s, s[t].parentId, t, g, f - 1);
      NoReturnWithin(s, t, g, f - 1);
    }
  }

  /** In an acyclic store no row is its own proper ancestor. */
  lemma AcyclicNoReturn(s: Store, t: Id)
    requires Acyclic(s) && t in s
    ensures !Reaches(s, s[t].parentId, t)
  {
    if Reaches(s, s[t].parentId, t) {
      var g: nat :| ReachesWithin(s, s[t].parentId, t, g);
      assert ChainEnds(s, Some(t));
      var f: nat :| EndsWithin(s, Some(t), f);
      NoReturnWithin(s, t, g, f);
    }
  }

  // ---------------------------------------------------------------------
  // Consistent stores

  /** A consistent row's path is non-empty and ends with its own id. */
  lemma PathEndsWithId(s: Store, k: Id)
    requires Consistent(s) && k in s
    ensures |s[k].path| > 0 && s[k].path[|s[k].path| - 1] == k
  {
    assert NodeConsistent(s, k);
  }

  /** In a consistent store two rows with the same path are the same row. */
  lemma PathsAreUnique(s: Store, a: Id, b: Id)
    requires Consistent(s) && a in s && b in s && s[a].path == s[b].path
    ensures a == b
  {
    PathEndsWithId(s, a);
    PathEndsWithId(s, b);
  }

  lemma {:induction false} ConsistentChainEnds(s: Store, k: Id)
    requires Consistent(s) && k in s
    ensures EndsWithin(s, Some(k), |s[k].path|)
    decreases |s[k].path|
  {
    assert NodeConsistent(s, k);
    match s[k].parentId
    case None =>
    case Some(p) =>
      ConsistentChainEnds(s, p);
  }

  /** Consistent levels and paths rule out cycles: the path shortens at every step up. */
  lemma ConsistentIsWellformed(s: Store)
    requires Consistent(s)
    ensures Wellformed(s)
  {
    forall k | k in s
      ensures ChainEnds(s, Some(k)) && s[k].id == k
      ensures s[k].parentId.Some? ==> s[k].parentId.value in s
    {
      assert NodeConsistent(s, k);
      ConsistentChainEnds(s, k);
    }
  }

  /** In a consistent store `level` is the depth: one less than the path length, and 0 exactly at a root. */
  lemma {:induction false} LevelIsDepth(s: Store, k: Id)
    requires Consistent(s) && k in s
    ensures s[k].level == |s[k].path| - 1
    ensures s[k].level == 0 <==> s[k].parentId.None?
    decreases |s[k].path|
  {
    assert NodeConsistent(s, k);
    match s[k].parentId
    case None =>
    case Some(p) =>
      LevelIsDepth(s, p);
      PathEndsWithId(s, p);
  }

  lemma {:induction false} AncestorPathIsPrefix(s: Store, k: Id, n: Id, f: nat)
    requires Consistent(s) && ReachesWithin(s, Some(k), n, f)
    ensures n in s && IsPrefix(s[n].path, s[k].path)
    decreases f
  {
    assert NodeConsistent(s, k);
    if k != n {
      var p := s[k].parentId.value;
      AncestorPathIsPrefix(s, p, n, f - 1);
      assert s[k].path[..|s[n].path|] == s[p].path[..|s[n].path|];
    }
  }

  lemma {:induction false} PrefixPathIsAncestor(s: Store, k: Id, n: Id)
    requires Consistent(s) && k in s && n in s && IsPrefix(s[n].path, s[k].path)
    ensures Reaches(s, Some(k), n)
    decreases |s[k].path|
  {
    assert NodeConsistent(s, k);
    PathEndsWithId(s, n);
    if |s[n].path| == |s[k].path| {
      PathsAreUnique(s, k, n);
      assert ReachesWithin(s, Some(k), n, 0);
    } else {
      var p := s[k].parentId.value;
      assert s[p].path == s[k].path[..|s[k].path| - 1];
      assert s[p].path[..|s[n].path|] == s[k].path[..|s[n].path|];
      PrefixPathIsAncestor(s, p, n);
      ReachesStep(s, k, n);
    }
  }

  /** The materialized path encodes ancestry: `n` is `k` or an ancestor of `k` exactly when `n`'s path is a prefix of `k`'s. */
  lemma PathEncodesAncestry(s: Store, k: Id, n: Id)
    requires Consistent(s) && k in s && n in s
    ensures Reaches(s, Some(k), n) <==> IsPrefix(s[n].path, s[k].path)
  {
    if Reaches(s, Some(k), n) {
      var f: nat :| ReachesWithin(s, Some(k), n, f);
      AncestorPathIsPrefix(s, k, n, f);
    }
    if IsPrefix(s[n].path, s[k].path) {
      PrefixPathIsAncestor(s, k, n);
    }
  }
}
