# Location tree service, modelled in Dafny

`LocationService` keeps a hierarchy of locations in one `locations` table.
Each row carries a `parentId` (null for a root), a `level` (its depth) and a
materialized `path`: the ids from a root down to the row itself, joined by
'.'. The service creates rows, looks them up, re-parents them, deletes them
and assembles the tree. Re-parenting does three things:
- it checks for cycles by walking up the parent chain;
- it rewrites `level` and `path` for the whole moved subtree with a prefix match on `path`;
- it saves the row.

The model has these parts:

- `materialized_path.dfy`: paths as sequences of dot-free ids. `Join` gives
  the stored text. The lemmas there show that the subtree test
  `path LIKE 'old.%'` is the sequence test `Extends`, and that replacing the
  leading `old.` is the sequence operation `Rebase`.
- `location_store.dfy`: the row, the request records, the errors, and the
  `Object.assign` of a request onto a row. It also holds the invariants:
  - `Wellformed`: rows are keyed by their id, parents exist, and the parent links have no cycle;
  - `Consistent`: every row's level and path agree with its parent.

  The lemmas there show that in a consistent store the path encodes ancestry
  and the level is the depth.
- `tree_invariants.dfy`: how inserting, deleting and re-linking a row act on
  those invariants.
- `subtree_move.dfy`: the bulk rewrite of a moved subtree, and `update` twice:
  - `AsWrittenUpdate`, as the service performs it;
  - `IntendedUpdate`, as evidently intended.

  The file also has the lemmas about both, and two concrete inputs on which
  the two differ.
- `location_tree.dfy`: the tree `getTree` returns, and the proof that it
  holds every stored row exactly where its parent links put it.
- `location_service.dfy`: the service itself.
  - The class `LocationService` holds the table as a `map` field `store`.
  - Each repository call is a method that reads or reassigns that field.
  - The cycle walk is a `while` loop.
  - Tree assembly is a recursive method with `for` loops.
  - Every operation is proved against the functions and invariants above.

The source states its own intent for re-parenting: the comment at
`location.service.ts:73` reads "update level and path for this node and all
its children", and the test at `test/location.integration.spec.ts:109-111`
expects the moved row's path to be `${parent2Id}.${childId}`. That test
passes only because its `save` is mocked. In the code, the row loaded before
the cascade is the one saved afterwards, so it writes its old `level` and
`path` back. The
model follows the code (`AsWrittenUpdate`, `Service.LocationService.Update`).
It records the discrepancy under Findings, and models the corrected
behaviour separately (`IntendedUpdate`, `Service.LocationService.UpdateIntended`).

## Model

| member | source | states |
|---|---|---|
| MaterializedPath.ChildPathText | location-tree-api/src/modules/location/services/location.service.ts:38-40 | the child path `parent + [id]` is stored as the text `${parent.path}.${id}`, and a root's path is its id |
| MaterializedPath.JoinConcat | location-tree-api/src/modules/location/services/location.service.ts:77 | joining two non-empty paths puts exactly one '.' between their texts |
| MaterializedPath.ExtendsIsLike | location-tree-api/src/modules/location/services/location.service.ts:180 | for paths of dot-free ids, `path LIKE '<a>.%'` holds exactly when `a` is a proper prefix of the path (both directions) |
| MaterializedPath.LikeImpliesExtends | location-tree-api/src/modules/location/services/location.service.ts:180 | the text match `path LIKE '<a>.%'` implies the sequence prefix test (the hard direction, by induction on `a`) |
| MaterializedPath.RebaseReplacesPrefixText | location-tree-api/src/modules/location/services/location.service.ts:178 | on a path below `a`, the text after the leading `a.` is kept, and `Rebase` yields `newPath.` followed by that same text |
| MaterializedPath.Rebase | location-tree-api/src/modules/location/services/location.service.ts:178 | on a path strictly below the old prefix, the stored text of the result is `newPath.` followed by the text that followed `oldPath.`, the effect of `REPLACE(path, 'oldPath.', 'newPath.')` on its leading occurrence; the ids below the prefix are kept |
| LocationStore.Assign | location-tree-api/src/modules/location/services/location.service.ts:82 | `Object.assign`: each property the request carries overwrites the row's; a null `parentId` makes the row a root; absent properties and `id`, `level`, `path` are kept |
| LocationStore.PathEncodesAncestry | location-tree-api/src/modules/location/services/location.service.ts:173-181 | in a consistent store, `n` is `k` or an ancestor of `k` exactly when `n`'s path is a prefix of `k`'s path; this is why the prefix rewrite reaches exactly the subtree |
| LocationStore.AncestorPathIsPrefix | location-tree-api/src/modules/location/services/location.service.ts:173-181 | in a consistent store, walking up from `k` to `n` means `n`'s path is a prefix of `k`'s |
| LocationStore.PrefixPathIsAncestor | location-tree-api/src/modules/location/services/location.service.ts:173-181 | in a consistent store, a row whose path is a prefix of `k`'s path is reached by walking up from `k` |
| LocationStore.LevelIsDepth | location-tree-api/src/modules/location/services/location.service.ts:18-27 | in a consistent store, `level` is the path length minus one, and it is 0 exactly at a root |
| LocationStore.PathEndsWithId | location-tree-api/src/modules/location/services/location.service.ts:38-40 | in a consistent store, every path is non-empty and ends with the row's own id |
| LocationStore.PathsAreUnique | location-tree-api/src/modules/location/services/location.service.ts:38-40 | in a consistent store, two rows with the same path are the same row |
| LocationStore.ConsistentIsWellformed | location-tree-api/src/modules/location/services/location.service.ts:136-153 | consistent levels and paths imply that rows are keyed, parents exist and every upward walk stops |
| LocationStore.AcyclicNoReturn | location-tree-api/src/modules/location/services/location.service.ts:136-153 | in an acyclic store, no row is reached again by walking up from its own parent |
| LocationStore.ReachesStep | location-tree-api/src/modules/location/services/location.service.ts:146-149 | one iteration of the cycle walk: for a stored row other than `n`, reaching `n` from the row is the same as reaching it from the row's parent |
| LocationStore.ReachesTrans | location-tree-api/src/modules/location/services/location.service.ts:140-150 | an ancestor of an ancestor is an ancestor |
| TreeInvariants.InsertKeepsWellformed | location-tree-api/src/modules/location/services/location.service.ts:30-42 | inserting a row under a fresh id, with a null or stored parent, keeps the store well-formed |
| TreeInvariants.InsertKeepsConsistent | location-tree-api/src/modules/location/services/location.service.ts:27-40 | inserting a fresh row whose level and path follow its parent keeps the store consistent |
| TreeInvariants.RemoveKeepsWellformed | location-tree-api/src/modules/location/services/location.service.ts:86-96 | deleting a row that no row names as parent keeps the store well-formed, with no dangling parent |
| TreeInvariants.RemoveKeepsConsistent | location-tree-api/src/modules/location/services/location.service.ts:86-96 | deleting a row without children keeps the store consistent |
| TreeInvariants.RelinkKeepsWellformed | location-tree-api/src/modules/location/services/location.service.ts:67-71 | re-linking a row under null, or under a stored row that is neither the row nor below it, keeps the store acyclic and well-formed |
| TreeInvariants.PayloadEditKeepsConsistent | location-tree-api/src/modules/location/services/location.service.ts:82-83 | saving a row with only its name, number or area changed keeps the store consistent |
| SubtreeMove.Rebased | location-tree-api/src/modules/location/services/location.service.ts:155-182 | the two bulk statements as one function on the table; no row is added or removed |
| SubtreeMove.RebasedKeepsRows | location-tree-api/src/modules/location/services/location.service.ts:165-179 | the rewrite sets only `level` and `path`; ids, payload and parent links of every row stay |
| SubtreeMove.RebasedEffects | location-tree-api/src/modules/location/services/location.service.ts:161-181 | the row itself gets `level + levelDiff` and `newPath`, unless `newPath` is itself below `oldPath`; every other row below `oldPath` gets `level + levelDiff` and its prefix replaced; every other row is untouched |
| SubtreeMove.AsWrittenUpdate | location-tree-api/src/modules/location/services/location.service.ts:64-84 | `update` as written: a failure leaves the table unchanged and a missing id is NotFound; on success the saved row is the returned one, its level and path are those loaded before the cascade, and its parent is the requested one |
| SubtreeMove.IntendedRelink | location-tree-api/src/modules/location/services/location.service.ts:68-80 | the corrected re-link step succeeds exactly when the new parent is null, or is stored, is not the row and is not below it; a failure leaves the table unchanged |
| SubtreeMove.IntendedUpdate | location-tree-api/src/modules/location/services/location.service.ts:64-84 | the corrected `update`: a failure leaves the table unchanged and a missing id is NotFound; on success the saved row is the returned one and its parent is the requested one (null included) |
| SubtreeMove.AsWrittenUpdateKeepsWellformed | location-tree-api/src/modules/location/services/location.service.ts:64-84 | `update` as written never creates a cycle, a dangling parent or a mis-keyed row |
| SubtreeMove.IntendedUpdateKeepsWellformed | location-tree-api/src/modules/location/services/location.service.ts:64-84 | the corrected `update` keeps the store well-formed |
| SubtreeMove.TargetNotBelow | location-tree-api/src/modules/location/services/location.service.ts:77 | a moved row's new path is not below its old path when the new parent is not in its subtree, so the second bulk statement does not rewrite the row again |
| SubtreeMove.MoveKeepsConsistent | location-tree-api/src/modules/location/services/location.service.ts:73-79 | moving a row under null or under a row outside its subtree, cascading and saving the rewritten row keeps every level and path consistent |
| SubtreeMove.DescendantRowConsistent | location-tree-api/src/modules/location/services/location.service.ts:172-181 | after the cascade, every row of the moved subtree agrees with its (also rewritten) parent |
| SubtreeMove.OtherRowConsistent | location-tree-api/src/modules/location/services/location.service.ts:172-181 | after the cascade, rows outside the moved subtree are untouched and still agree with their parents |
| SubtreeMove.IntendedUpdateKeepsConsistent | location-tree-api/src/modules/location/services/location.service.ts:64-84 | the corrected `update` keeps a consistent store consistent |
| SubtreeMove.UpdateRejectsMoveIntoOwnSubtree | location-tree-api/src/modules/location/services/location.service.ts:67-71 | in a consistent store, `update` fails with the cycle error exactly when the new parent's path has the moved row's path as a prefix (the row itself or a descendant), and the table is unchanged |
| SubtreeMove.AsWrittenEditKeepsConsistent | location-tree-api/src/modules/location/services/location.service.ts:82-83 | when the request leaves the parent as it is, `update` as written keeps a consistent store consistent |
| SubtreeMove.StaleMoveCounterexample | location-tree-api/src/modules/location/services/location.service.ts:65-83 | moving `c` from root `a` to root `b`: as written, the saved row keeps path `[a, c]` under parent `b` and the store is no longer consistent; as intended, `c` gets `[b, c]` and the store stays consistent |
| SubtreeMove.NullParentCounterexample | location-tree-api/src/modules/location/services/location.service.ts:68 | setting `c`'s parent to null: as written, `c` becomes a root with level 1 and the store is inconsistent; as intended, it gets level 0 and path `[c]` and the store stays consistent |
| LocationTree.ChildHasFewerDescendants | location-tree-api/src/modules/location/services/location.service.ts:119-121 | in a well-formed store, a child has strictly fewer descendants than its parent, so `buildTree`'s recursion terminates |
| LocationTree.TreeHoldsSubtree | location-tree-api/src/modules/location/services/location.service.ts:112-122 | a tree built from the store holds exactly its root and the root's descendants |
| LocationTree.WalkEndsAtRoot | location-tree-api/src/modules/location/services/location.service.ts:98-102 | in a well-formed store, the upward walk from every row ends at a root |
| LocationTree.ForestCoversStore | location-tree-api/src/modules/location/services/location.service.ts:98-110 | the forest of the roots' trees holds every stored row, and only stored rows |
| Service.FreshIdExists | location-tree-api/src/modules/location/entities/location.entity.ts:7-8 | the generated primary key can always be one the table does not hold yet |
| Service.LocationService.Save | location-tree-api/src/modules/location/services/location.service.ts:35 | `repository.save` inserts the row or overwrites the row with its id, and changes nothing else |
| Service.LocationService.Find | location-tree-api/src/modules/location/services/location.service.ts:100-102 | `repository.find({ where })` returns the stored rows the clause selects, each exactly once, unchanged |
| Service.LocationService.FindOne | location-tree-api/src/modules/location/services/location.service.ts:56-62 | the stored row, or NotFound exactly when the id is absent |
| Service.LocationService.GetParentPath | location-tree-api/src/modules/location/services/location.service.ts:45-48 | the stored parent's path, or NotFound exactly when the parent is absent |
| Service.LocationService.FindAll | location-tree-api/src/modules/location/services/location.service.ts:50-54 | every stored row exactly once |
| Service.LocationService.GetChildren | location-tree-api/src/modules/location/services/location.service.ts:124-128 | exactly the rows whose parent is `id`, each once; empty when there are none or `id` is absent |
| Service.LocationService.FindChildren | location-tree-api/src/modules/location/services/location.service.ts:130-134 | the same rows as `getChildren` |
| Service.LocationService.Create | location-tree-api/src/modules/location/services/location.service.ts:16-43 | a missing parent gives ParentNotFound and inserts nothing; otherwise exactly one row is added, under a fresh id, with the request's fields. A root gets level 0 and path `[id]`, a child gets its parent's level + 1 and path + `[id]`; validity and consistency are kept |
| Service.LocationService.WouldCreateCycle | location-tree-api/src/modules/location/services/location.service.ts:136-153 | returns true exactly when the new parent is the row itself or the row is met walking up from the new parent before a root or a missing id |
| Service.LocationService.UpdateSubtreeLevelAndPath | location-tree-api/src/modules/location/services/location.service.ts:155-182 | the table afterwards is `Rebased` of the table before (see `RebasedEffects` for what that changes) |
| Service.LocationService.Update | location-tree-api/src/modules/location/services/location.service.ts:64-84 | the outcome and the new table are those of `AsWrittenUpdate`, and validity is kept |
| Service.LocationService.Relink | location-tree-api/src/modules/location/services/location.service.ts:68-80 | the outcome and the new table are those of `IntendedRelink`, and validity is kept |
| SubtreeMove.RelinkStepKeepsWellformed | location-tree-api/src/modules/location/services/location.service.ts:68-80 | the cycle check and cascade of a re-link, before the save, keep the store well-formed: the cascade rewrites no parent link |
| Service.LocationService.UpdateIntended | location-tree-api/src/modules/location/services/location.service.ts:64-84 | the outcome and the new table are those of `IntendedUpdate`; validity is kept, and consistency too when the table was consistent |
| Service.LocationService.Remove | location-tree-api/src/modules/location/services/location.service.ts:86-96 | a missing id gives NotFound; a row with children gives the has-children error; in both cases the table is unchanged. Otherwise exactly that row is deleted, and validity and consistency are kept |
| Service.LocationService.GetTree | location-tree-api/src/modules/location/services/location.service.ts:98-110 | the result is the trees of exactly the roots, each once; each node's children are exactly the rows whose parent it is, recursively; together they hold every stored row |
| Service.LocationService.BuildTree | location-tree-api/src/modules/location/services/location.service.ts:112-122 | the node with, once each, the subtrees of exactly the rows whose parent it is |

## Left out

- Service.LocationService.FindAll: does not state the `ORDER BY path ASC`. The order depends on the database collation, so the model promises every row once, in any order.
- `REPLACE(path, 'old.', 'new.')` is modelled as a replacement of the leading `old.` only. SQL `REPLACE` rewrites every occurrence, including one that does not start at an id boundary. With ids of varying length the two differ: for ids `b`, `ab`, `c`, `REPLACE('b.ab.c', 'b.', 'x.')` gives `x.ax.c` where the model gives `x.ab.c`. With fixed-length ids, such as the 36-character UUIDs of `location.entity.ts:7`, every occurrence starts at an id boundary. The model's `Id` only requires non-empty dot-free text. It captures neither the extra occurrences nor a proof that a consistent path has no second occurrence at a boundary.
- `LIKE` wildcards: `_` and `%` inside an id would act as wildcards in the pattern. Ids are generated UUIDs, so the model treats them as plain dot-free text.
- Column widths (`varchar(255)`, `varchar(1000)` for the path) and the `decimal(10,2)` area are not modelled. The area is an opaque real; JavaScript numbers for `level` are unbounded integers here.
- Timestamps (`createdAt`, `updatedAt`) and the `parent`/`children` relation properties of the entity.
- Asynchrony and concurrency. The model is one sequential caller with no interleaving, so the non-atomic multi-step operations are atomic in the model.
- `buildTree` assigns `node.children` in place on the loaded entities. The model returns a `TreeNode` value per node, so aliasing between entity objects is not modelled.
- `create`'s first save at `location.service.ts:35` sends no `path` at all: the local `path = ''` at :19 is never used, and the entity built at :30-33 carries only the request's fields and `level`. The `path` column is NOT NULL with no default (`location.entity.ts:30-32`), so whether that insert succeeds, and with what value, depends on the database. The model assumes it succeeds and stores the path `[]`, whose text is "".
- The uuid generator is a nondeterministic choice of an id the table does not hold.
- The unused `IsNull` stub at the end of the file, the controller, the module wiring and the request validators.
- The thrown exception types and messages are modelled as the values of `Failure`.
- `findOne`'s and `wouldCreateCycle`'s column projections (`select: ['id', 'parentId']`). They only narrow what is read.

## Findings

| source | as written | input that shows it | evidently intended | confidence | as-written member | corrected member |
|---|---|---|---|---|---|---|
| location-tree-api/src/modules/location/services/location.service.ts:65-83 | the row loaded at :65 keeps its old `level` and `path`; after the cascade at :79, the save at :83 writes them back over the rewritten values | roots `a`, `b`, and `c` under `a`; update `c` with `parentId: b` | the moved row is saved with the level and path the cascade gave it: `c` gets path `b.c` | not executed | SubtreeMove.StaleMoveCounterexample | SubtreeMove.IntendedUpdateKeepsConsistent |
| location-tree-api/src/modules/location/services/location.service.ts:68 | a null `parentId` fails the truthiness test, so no cascade runs, but `Object.assign` at :82 still copies the null | roots `a`, `b`, and `c` under `a`; update `c` with `parentId: null` | the row becomes a root with level 0 and path `c`, with its subtree rewritten to match | not executed | SubtreeMove.NullParentCounterexample | Service.LocationService.UpdateIntended |
