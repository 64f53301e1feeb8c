# Skill tree: layout, connector gestures and the skill store

This project models the core of a skill-tree web application in Dafny and
proves properties of that model. A user's skills are nodes with a name, an
emoji, a level, a progress in `[0, 1]` and a list of connections to other
skills. Two parts of the application are modelled:

- **The canvas** (`src/components/app/tree/skill-tree-canvas.tsx`).
  - `buildLayout` builds a spanning forest over the undirected
    connection graph. Skills are tried as roots by descending progress, each
    new root starts a breadth-first traversal, and neighbours are visited in
    name order.
  - It then measures every subtree in integer units and places every node
    at a unit centre and a depth.
  - Finally it scales those units to pixels inside the margins of the
    canvas and sorts the nodes by depth, then by x.
  - The canvas also covers:
    - the dragged positions that override the layout;
    - the connector anchor of a node;
    - the de-duplicated edge list;
    - the hit test of a connection drag, and the clamping of pointer
      coordinates;
    - the connection-drag controller: its refs, listeners, animation frame
      and pending line;
    - the click guard, and the drop handler that stores a dragged node's
      position.
- **The skill store** (`src/store/skill-store.ts`): the skill list and the
  selected id, with `setSkills`, `selectSkill`, `addSkill`, `updateSkill`,
  `connectSkills`, `disconnectSkills`, `removeSkill` and `reset`.

Modules, in dependency order:

| module | file | contents |
|---|---|---|
| `SkillTypes` | `types.dfy` | `SkillNode`, `SkillLevel`, `Option`, and the id lookup that `new Map(...)` performs. |
| `Collation` | `collation.dfy` | The string order that the comparators use. |
| `Sorting` | `sorting.dfy` | `Array.prototype.sort` as a stable insertion sort. |
| `MockData` | `mock_data.dfy` | The initial skills. |
| `SkillStore` | `store.dfy` | The store's list operations as functions. `Store` is a class with the `skills` and `selected` fields, whose methods update them in place. |
| `ForestShape` | `forest.dfy` | The spanning forest, and the recursive meaning of `measure` and `assign`. |
| `Adjacency` | `adjacency.dfy` | The undirected adjacency map. |
| `Exploration` | `exploration.dfy` | One breadth-first step, and the invariants that the forest under construction keeps. |
| `Traversal` | `traversal.dfy` | The whole breadth-first traversal as functions. |
| `Layout` | `layout.dfy` | The imperative `traverse`, `measure`, `assign` and root loops, proved against those functions. |
| `Positioned` | `positioned.dfy` | The pixel layer and `buildLayout`. |
| `Projection` | `projection.dfy` | The overrides, the anchor, the edges, the hit test and clamping. |
| `Connector` | `connector.dfy` | The `Canvas` class that holds the gesture controller's state. |

Unit coordinates are kept doubled (`center2 == 2 * center`), so that the
half-unit centres stay integers. JavaScript numbers are modelled as exact
reals.

The canvas reads `skillPositions` and `setSkillPosition` from the skill
store (skill-tree-canvas.tsx:244-245), but `src/store/skill-store.ts`
declares neither. The model keeps the dragged positions as the `positions`
field of `Connector.Canvas` (see "Left out").

## Model

In the source column, `skill-tree-canvas.tsx` stands for
`src/components/app/tree/skill-tree-canvas.tsx` (the cells give the full
path).

| member | source | states |
|---|---|---|
| SkillTypes.Lookup | src/components/app/tree/skill-tree-canvas.tsx:55 | `skillMap.get(id)` is empty exactly when no skill has the id; otherwise it is a skill of the list with that id. |
| SkillTypes.LookupLast | src/components/app/tree/skill-tree-canvas.tsx:55 | The skill `skillMap` holds for an id is the last one with that id: later entries of `new Map` overwrite earlier ones, so no later skill has the id. |
| SkillTypes.Without | src/store/skill-store.ts:120 | Filtering `x` out of a connection list leaves no `x` and keeps every other id with its multiplicity. A list without `x` is returned unchanged. |
| Collation.StrLessTotal | src/components/app/tree/skill-tree-canvas.tsx:86-93 | The name order is total: two different strings are ordered one way or the other. |
| Collation.StrLessTransitive | src/components/app/tree/skill-tree-canvas.tsx:86-93 | The name order is transitive. |
| Sorting.SortBy | src/components/app/tree/skill-tree-canvas.tsx:72-75 | Sorting returns a permutation of its input: the same length and the same multiset. |
| Sorting.SortBySorted | src/components/app/tree/skill-tree-canvas.tsx:215 | For a comparator that is a strict weak order, no element of the result sorts before an element to its left. |
| Sorting.SortBySortedOn | src/components/app/tree/skill-tree-canvas.tsx:124-131 | The same for a comparator that is a strict weak order only on the elements being sorted, whatever it does elsewhere. |
| Sorting.SortByStable | src/components/app/tree/skill-tree-canvas.tsx:72-75 | The sort is stable: for every `y`, the elements equivalent to `y` (neither sorts before the other) appear in the same order as in the input. |
| Sorting.InsertTies | src/components/app/tree/skill-tree-canvas.tsx:72-75 | One insertion step keeps the elements equivalent to any `y` in arrival order. |
| Sorting.SortByMap | src/components/app/tree/skill-tree-canvas.tsx:215 | When a map carries one comparator over to another, sorting the images gives the images of the sorted list. |
| Sorting.SortByLocallySorted | src/components/app/tree/skill-tree-canvas.tsx:124-131 | For any asymmetric comparator, even a non-transitive one, no element of this insertion sort's result sorts before its predecessor. |
| MockData.SkillNodes | src/lib/mock-data.ts:11-100 | The initial store holds eleven skills. |
| SkillStore.FindFirst | src/store/skill-store.ts:142 | `find` returns nothing exactly when no skill has the id; otherwise it returns a skill with that id. |
| SkillStore.FindFirstFirst | src/store/skill-store.ts:142 | The skill `find` returns is the first one with the id: no earlier skill has it. |
| SkillStore.Merge | src/store/skill-store.ts:22-25 | `{...skill, ...updates}` takes each given field from the update and every other field from the skill. The id and the connections are never changed. |
| SkillStore.MergedLast | src/store/skill-store.ts:71-86 | `updateSkill` reports nothing exactly when no skill has the id. |
| SkillStore.MergedLastIn | src/store/skill-store.ts:71-86 | The reported skill is the merge of the last skill with the id, and it is an element of the patched list. |
| SkillStore.Dedup | src/store/skill-store.ts:60 | `Array.from(new Set(...))` has no duplicates and the same members as its input. |
| SkillStore.DedupAppend | src/store/skill-store.ts:60 | Adding an id to a duplicate-free connection list appends it once, or leaves the list unchanged if the id is already there. |
| SkillStore.Lower | src/store/skill-store.ts:47 | An ASCII capital becomes the lower-case letter at the same place in the alphabet; every other character is kept. A non-space character never becomes whitespace. |
| SkillStore.SlugFrom | src/store/skill-store.ts:47 | The slug of a name contains no whitespace and is no longer than the name. A name without whitespace becomes its characters lower-cased, one for one. |
| SkillStore.SlugGap | src/store/skill-store.ts:47 | A whitespace run becomes one `-`, however long it is. |
| SkillStore.SlugWordThen | src/store/skill-store.ts:47 | A whitespace-free prefix is lower-cased in place, whatever follows it. |
| SkillStore.SlugJoin | src/store/skill-store.ts:47 | Two whitespace-free words around a whitespace run become the lower-cased words joined by a single `-`. |
| SkillStore.SkillId | src/store/skill-store.ts:47 | A new id ends with `-` followed by the random suffix. |
| SkillStore.LinkNewOnce | src/store/skill-store.ts:58-62 | Every skill named in `connectsTo` lists the new id exactly once and keeps its other connections. Every other skill is unchanged. |
| SkillStore.PatchKeepsShape | src/store/skill-store.ts:73-79 | `updateSkill` keeps every id and connection list and changes only the skills with the id. For an unknown id the list is unchanged. |
| SkillStore.Patch | src/store/skill-store.ts:73-79 | `updateSkill` maps the list: one skill out for each skill in. |
| SkillStore.LinkNew | src/store/skill-store.ts:58-62 | The linking pass of `addSkill` maps the list: one skill out for each skill in. |
| SkillStore.ConnectLinksBoth | src/store/skill-store.ts:92-102 | After `connectSkills(a, b)`, a skill with id `a` lists `b` and a skill with id `b` lists `a`. Each changed list grows by exactly that one id at its end, and no other skill changes. |
| SkillStore.Connect | src/store/skill-store.ts:92-102 | `connectSkills` maps the list: one skill out for each skill in (the link facts are in `ConnectLinksBoth`). |
| SkillStore.Disconnect | src/store/skill-store.ts:115-131 | `disconnectSkills` maps the list: one skill out for each skill in (the unlink facts are in `DisconnectUnlinks`). |
| SkillStore.ConnectIdempotent | src/store/skill-store.ts:88-110 | Connecting the same pair twice is the same as connecting it once. |
| SkillStore.ConnectSelf | src/store/skill-store.ts:92-100 | `connectSkills(a, a)` adds `a` to its own list at most once. |
| SkillStore.ConnectDangling | src/store/skill-store.ts:88-102 | Connecting from an id that no skill has still adds it to the target's list, so a reference to a missing skill appears. |
| SkillStore.ConnectKeepsIds | src/store/skill-store.ts:88-131 | Connecting and disconnecting never change the ids or their order. |
| SkillStore.DisconnectUnlinks | src/store/skill-store.ts:111-131 | After `disconnectSkills(a, b)`, `a` no longer lists `b` and `b` no longer lists `a`. Every other id keeps its multiplicity, and every other skill is unchanged. |
| SkillStore.ConnectThenDisconnect | src/store/skill-store.ts:88-131 | Disconnecting a pair that was just connected, where neither side listed the other before, restores the list exactly. |
| SkillStore.ConnectKeepsConsistent | src/store/skill-store.ts:88-110 | On a consistent list, connecting two existing skills keeps the list consistent. Consistent means unique ids, only existing references, and symmetric links. |
| SkillStore.DisconnectKeepsConsistent | src/store/skill-store.ts:111-139 | Disconnecting keeps a consistent list consistent. |
| SkillStore.PurgeRemoves | src/store/skill-store.ts:147-152 | After `removeSkill(id)`, no skill has the id and no skill lists it. |
| SkillStore.PurgeLength | src/store/skill-store.ts:147-148 | Exactly the skills with the id are dropped. |
| SkillStore.PurgeKeeps | src/store/skill-store.ts:147-152 | The remaining skills are exactly the others, each with the id filtered out of its connections. |
| SkillStore.PatchedList | src/store/skill-store.ts:71-86 | The loop over the list computes `Patch`, and the skill it reports is `MergedLast`. |
| SkillStore.ConnectedList | src/store/skill-store.ts:92-102 | The loop over the list computes `Connect`, and `changed` is set exactly when the list differs. |
| SkillStore.DisconnectedList | src/store/skill-store.ts:115-131 | The loop computes `Disconnect`, and `changed` is set exactly when the list differs. |
| SkillStore.Store.constructor | src/store/skill-store.ts:41-42 | The store starts with the mock skills, and `python` is selected. |
| SkillStore.Store.SetSkills | src/store/skill-store.ts:43 | It replaces the list and keeps the selection. |
| SkillStore.Store.SelectSkill | src/store/skill-store.ts:44 | It sets the selection and keeps the list. |
| SkillStore.Store.Reset | src/store/skill-store.ts:162 | It restores the mock skills and selects `python`. |
| SkillStore.Store.AddSkill | src/store/skill-store.ts:45-68 | The new skill has the slug id, the given fields, the default progress for its level when none is given, and `connectsTo` as its connections. It is appended after the linked list and becomes the selected skill. |
| SkillStore.Store.UpdateSkill | src/store/skill-store.ts:69-87 | For an unknown id it returns nothing and nothing changes. Otherwise it patches every skill with the id and keeps the selection. It returns the merge of the last skill with the id, which is an element of the new list. |
| SkillStore.Store.ConnectSkills | src/store/skill-store.ts:88-110 | The list becomes `Connect(old, source, target)`, and the result says whether it changed. |
| SkillStore.Store.DisconnectSkills | src/store/skill-store.ts:111-139 | The list becomes `Disconnect(old, source, target)`, and the result says whether it changed. |
| SkillStore.Store.RemoveSkill | src/store/skill-store.ts:140-161 | For an unknown id it returns nothing and nothing changes. Otherwise it returns the first skill with the id (no earlier skill has it), purges the id, and clears the selection exactly when that id was selected. |
| Adjacency.BuildAdjacency | src/components/app/tree/skill-tree-canvas.tsx:56-65 | The loop builds `AdjacencyOf(skills)`. |
| Adjacency.AdjacencyKeys | src/components/app/tree/skill-tree-canvas.tsx:56-65 | The keys are exactly the ids that are skills or are named as a connection. |
| Adjacency.AdjacencyLinks | src/components/app/tree/skill-tree-canvas.tsx:56-65 | `v` is a neighbour of `k` exactly when one of them is a skill that names the other. |
| Adjacency.AdjacencySymmetric | src/components/app/tree/skill-tree-canvas.tsx:56-65 | Adjacency is symmetric and closed: every neighbour is a key, and every skill is a key. |
| Adjacency.AdjacencySetLike | src/components/app/tree/skill-tree-canvas.tsx:56-65 | Each neighbour set has no duplicates. |
| Exploration.ClaimedFacts | src/components/app/tree/skill-tree-canvas.tsx:97-103 | The claim loop takes exactly the unvisited neighbours, once each and in order. It gives them `current` as their parent and changes no other parent. |
| Traversal.NeighborLessAsymmetric | src/components/app/tree/skill-tree-canvas.tsx:86-93 | The neighbour comparator never orders two ids both ways. |
| Traversal.PriorityLessWeakOrder | src/components/app/tree/skill-tree-canvas.tsx:72-75 | Ordering by descending progress, then by name, is a strict weak order. |
| Traversal.SortedNbrsAre | src/components/app/tree/skill-tree-canvas.tsx:86-93 | The sorted neighbours are exactly the adjacency's neighbours. |
| Traversal.PriorityOrderFacts | src/components/app/tree/skill-tree-canvas.tsx:72-75 | `sortedByPriority` is a sorted permutation of the skills. |
| Traversal.DrainClosed | src/components/app/tree/skill-tree-canvas.tsx:84-108 | When the queue empties, every neighbour of a visited node is visited. |
| Traversal.Drain | src/components/app/tree/skill-tree-canvas.tsx:84-108 | The queue loop only adds to the visited set, and only adjacency keys. |
| Traversal.Traversed | src/components/app/tree/skill-tree-canvas.tsx:77-109 | A traversal visits its root, and keeps what was visited before. |
| Traversal.TraversedExplored | src/components/app/tree/skill-tree-canvas.tsx:77-109 | A traversal adds its root as the last root, keeps the parents of the nodes already visited, and leaves the visited set closed. |
| Traversal.TraversedWellFormed | src/components/app/tree/skill-tree-canvas.tsx:77-109 | A traversal keeps the forest well formed. Well formed means: the parent and children maps agree, children come after their parent in discovery order, and no child is listed twice. |
| Traversal.GrowExplored | src/components/app/tree/skill-tree-canvas.tsx:111-121 | After the root passes, every skill of the order has been visited, and every root is the id of a skill. |
| Traversal.GrowWellFormed | src/components/app/tree/skill-tree-canvas.tsx:111-121 | The root passes produce a well-formed forest. |
| Traversal.Grow | src/components/app/tree/skill-tree-canvas.tsx:111-121 | The root passes visit only adjacency keys. |
| Traversal.SpanningForestWellFormed | src/components/app/tree/skill-tree-canvas.tsx:67-132 | The forest that `buildLayout` builds is well formed. |
| Traversal.SpanningForestCovers | src/components/app/tree/skill-tree-canvas.tsx:67-132 | The forest has a parent entry for every adjacency key. Every parent is a graph neighbour of its child, and every root is a skill id. |
| Traversal.ByNameWeakOrder | src/components/app/tree/skill-tree-canvas.tsx:86-93 | On skill ids the neighbour comparator is a strict weak order. |
| Traversal.ByNameCyclic | src/components/app/tree/skill-tree-canvas.tsx:86-93 | With a dangling id the neighbour comparator can be cyclic (see "Left out"). |
| Traversal.SpanningForestChildrenSorted | src/components/app/tree/skill-tree-canvas.tsx:123-132 | No child sorts before its predecessor in any children list. A list whose children are all skill ids is sorted by name outright. |
| Traversal.SortChildrenWellFormed | src/components/app/tree/skill-tree-canvas.tsx:123-132 | Sorting the children lists keeps the forest well formed. |
| Layout.ClaimNeighbors | src/components/app/tree/skill-tree-canvas.tsx:95-103 | The claim loop computes `Claimed`, and the queue grows by exactly the claimed children. |
| Layout.Traverse | src/components/app/tree/skill-tree-canvas.tsx:77-109 | The queue loop computes `Traversed`. |
| Layout.GrowForest | src/components/app/tree/skill-tree-canvas.tsx:111-121 | The root pass computes `Grow`. |
| Layout.BuildForest | src/components/app/tree/skill-tree-canvas.tsx:55-132 | The imperative construction yields `SpanningForest(skills)`. |
| Layout.Measure | src/components/app/tree/skill-tree-canvas.tsx:134-153 | The memoised `measure` returns `Width`, keeps the memo table correct, and fills it for the whole subtree. |
| Layout.WidthOfParent | src/components/app/tree/skill-tree-canvas.tsx:144-151 | A parent is exactly as wide as its children's widths plus one unit between siblings. |
| Layout.ChildrenUnits | src/components/app/tree/skill-tree-canvas.tsx:176-178 | `totalWithSpacing` equals the parent's own width, so the children are centred under the parent. |
| Layout.MeasureRoots | src/components/app/tree/skill-tree-canvas.tsx:155 | `rootWidths[j]` is the width of root `j`, and the memo table is complete afterwards. |
| Layout.TotalUnitsAll | src/components/app/tree/skill-tree-canvas.tsx:156-159 | `totalUnits` is the span of all the roots: their widths plus three units between neighbouring roots. |
| Layout.Assign | src/components/app/tree/skill-tree-canvas.tsx:167-189 | `assign` appends exactly `Place` of the subtree. `maxDepth` becomes the larger of its old value and the subtree's deepest level. |
| Layout.AssignChildren | src/components/app/tree/skill-tree-canvas.tsx:179-188 | The children loop appends the placements of all the children, and raises `maxDepth` to the children's deepest level. |
| Layout.AssignRoots | src/components/app/tree/skill-tree-canvas.tsx:191-199 | The roots loop yields `PlaceRoots` of all the roots, and `maxDepth` is the forest's height. |
| ForestShape.Width | src/components/app/tree/skill-tree-canvas.tsx:136-153 | Every subtree is at least one unit wide. |
| ForestShape.Place | src/components/app/tree/skill-tree-canvas.tsx:167-170 | A subtree's first entry is its root, centred in the subtree's width, at the given depth. |
| ForestShape.PlaceIds | src/components/app/tree/skill-tree-canvas.tsx:167-189 | `assign` places every node of the subtree exactly once, and nothing else. |
| ForestShape.PlaceRootsIds | src/components/app/tree/skill-tree-canvas.tsx:191-199 | The roots loop places every node under the roots exactly once. |
| ForestShape.PlaceSpan | src/components/app/tree/skill-tree-canvas.tsx:167-189 | Every node's own width lies inside its ancestor subtree's width. |
| ForestShape.SiblingSpansDisjoint | src/components/app/tree/skill-tree-canvas.tsx:181-188 | The subtrees of two siblings never overlap: every node of the left one ends strictly before every node of the right one begins. |
| ForestShape.ChildPlaced | src/components/app/tree/skill-tree-canvas.tsx:179-188 | Child `k` is placed one level down, after the widths of the children before it and one unit of spacing for each. |
| ForestShape.ChildrenTile | src/components/app/tree/skill-tree-canvas.tsx:179-188 | The children tile the parent's width exactly, left to right, with one unit between neighbours. |
| ForestShape.SpanGrows | src/components/app/tree/skill-tree-canvas.tsx:184-187 | Each later child starts at least one unit after an earlier child ends. |
| ForestShape.PlaceDepth | src/components/app/tree/skill-tree-canvas.tsx:183 | Every node is placed at its depth in the forest. |
| ForestShape.PlaceBelow | src/components/app/tree/skill-tree-canvas.tsx:171 | No node of a subtree is placed below the subtree's height. |
| ForestShape.PlaceReaches | src/components/app/tree/skill-tree-canvas.tsx:171 | Some node of a subtree lies exactly at the subtree's height. |
| ForestShape.PlaceRootsBounds | src/components/app/tree/skill-tree-canvas.tsx:191-199 | Every node lies within `[0, totalUnits]` and at its forest depth. |
| ForestShape.PlaceRootsHeight | src/components/app/tree/skill-tree-canvas.tsx:165-171 | No node is deeper than `maxDepth`. |
| ForestShape.PlaceRootsDeepest | src/components/app/tree/skill-tree-canvas.tsx:165-171 | Some node is exactly as deep as `maxDepth`. |
| ForestShape.SiblingsDisjoint | src/components/app/tree/skill-tree-canvas.tsx:97-103 | Sibling subtrees share no node. |
| ForestShape.RootSpanGrows | src/components/app/tree/skill-tree-canvas.tsx:191-199 | Each later root starts at least three units after an earlier root's tree ends. |
| ForestShape.RootSpansDisjoint | src/components/app/tree/skill-tree-canvas.tsx:191-199 | The trees of two roots never overlap: every node of the earlier tree ends at least the component spacing before every node of the later tree begins. |
| ForestShape.RootsDisjoint | src/components/app/tree/skill-tree-canvas.tsx:111-121 | The trees of different roots share no node. |
| ForestShape.RootsSubAll | src/components/app/tree/skill-tree-canvas.tsx:111-121 | Every node of the forest lies under some root. |
| Positioned.UnitWidth | src/components/app/tree/skill-tree-canvas.tsx:160-162 | With at least one unit, the units exactly fill the width between the margins. |
| Positioned.VerticalGap | src/components/app/tree/skill-tree-canvas.tsx:201-203 | With at least one level, the levels exactly fill the height between the margins. Otherwise the gap is zero. |
| Positioned.PixelXInside | src/components/app/tree/skill-tree-canvas.tsx:205-210 | A centre inside `[0, totalUnits]` lands between 10% and 90% of the canvas. |
| Positioned.PixelYInside | src/components/app/tree/skill-tree-canvas.tsx:205-211 | A depth up to `maxDepth` lands between 12% and 88% of the canvas. |
| Positioned.PixelYRows | src/components/app/tree/skill-tree-canvas.tsx:205-211 | Deeper levels are strictly lower on the canvas. |
| Positioned.BeforeWeakOrder | src/components/app/tree/skill-tree-canvas.tsx:215 | Ordering by depth, then by x, is a strict weak order. |
| Positioned.UnitLayer | src/components/app/tree/skill-tree-canvas.tsx:55-199 | The imperative unit layer yields the spanning forest, its placements, its span and its height. |
| Positioned.BuildLayoutAsWritten | src/components/app/tree/skill-tree-canvas.tsx:50-218 | Empty input gives an empty result. Otherwise the result is the sorted list of one node per placed id, with the forest's parent map. |
| Positioned.BuildLayout | src/components/app/tree/skill-tree-canvas.tsx:50-218 | The same, but only the ids that some skill has become nodes. |
| Positioned.PlacedOnce | src/components/app/tree/skill-tree-canvas.tsx:164-199 | `positionUnits` receives every adjacency key exactly once, so no entry is overwritten. |
| Positioned.LaidOutSorted | src/components/app/tree/skill-tree-canvas.tsx:215 | The nodes come out sorted by depth, then by x. |
| Positioned.SpreadLaidOutSorted | src/components/app/tree/skill-tree-canvas.tsx:215 | The nodes of `buildLayout` as written come out sorted by depth, then by x. |
| Positioned.SkilledLift | src/components/app/tree/skill-tree-canvas.tsx:205-213 | When every placed id is a skill's, the node map as written is the skilled one with the fields spread in. |
| Positioned.EntriesAreSkills | src/components/app/tree/skill-tree-canvas.tsx:56-65 | When every connection names a skill, every placed id is a skill id. |
| Positioned.SpreadAgrees | src/components/app/tree/skill-tree-canvas.tsx:50-218 | When every connection names a skill, `buildLayout` as written returns exactly the skilled nodes with their fields spread in, in the same order and with the same parent map. |
| Positioned.LaidOutCovers | src/components/app/tree/skill-tree-canvas.tsx:205-213 | Every skill becomes exactly one node, and nothing else becomes a node. |
| Positioned.LaidOutSkills | src/components/app/tree/skill-tree-canvas.tsx:206 | Each node carries the fields that `skillMap` holds for its id. |
| Positioned.LaidOutInside | src/components/app/tree/skill-tree-canvas.tsx:205-213 | Every node lies inside the margins. |
| Positioned.LaidOutRows | src/components/app/tree/skill-tree-canvas.tsx:201-213 | Each node's depth is its forest depth. Nodes of equal depth share a row, and deeper nodes are lower. |
| Positioned.PhantomLaid | src/components/app/tree/skill-tree-canvas.tsx:205-213 | As written, a connection to an id that no skill has produces a node without any skill fields. |
| Positioned.NodeIdsDistinct | src/components/app/tree/skill-tree-canvas.tsx:215 | Sorting keeps node ids distinct. |
| Projection.OverridesKeep | src/components/app/tree/skill-tree-canvas.tsx:265-277 | The overrides keep the order, the ids, the skills and the depths. A node with a stored position moves to that position scaled by the canvas size, and every other node is unchanged. |
| Projection.OverridesIdempotent | src/components/app/tree/skill-tree-canvas.tsx:265-277 | Applying the overrides twice equals applying them once. |
| Projection.WithOverrides | src/components/app/tree/skill-tree-canvas.tsx:265-277 | One node out for each node in (the position facts are in `OverridesKeep`). |
| Projection.ConnectorPoint | src/components/app/tree/skill-tree-canvas.tsx:284-293 | The anchor sits 36 px right and 86 px down from a selected node's position, and 30 px right and 80 px down from any other node's. |
| Projection.NodeLookup | src/components/app/tree/skill-tree-canvas.tsx:279-282 | `nodeLookup.get(id)` is empty exactly when no drawn node has the id. |
| Projection.Edges | src/components/app/tree/skill-tree-canvas.tsx:295-310 | The loop over the nodes and their connections computes the scan, for any key function. |
| Projection.EdgesOf | src/components/app/tree/skill-tree-canvas.tsx:298-308 | One node's connections extend the scan by exactly those visits. |
| Projection.VisitsOf | src/components/app/tree/skill-tree-canvas.tsx:298-300 | The visits are exactly the pairs of a node and one of its connections. |
| Projection.ScanCovers | src/components/app/tree/skill-tree-canvas.tsx:301-305 | Every connection to a drawn node has its key in `seen` after the scan. |
| Projection.ScanKeyed | src/components/app/tree/skill-tree-canvas.tsx:296-308 | `seen` holds exactly the keys of the edges found, and no two edges share a key. |
| Projection.ScanSourced | src/components/app/tree/skill-tree-canvas.tsx:298-308 | Every edge joins a visited node to the drawn node of one of its connection ids. |
| Projection.PairKeyUnordered | src/components/app/tree/skill-tree-canvas.tsx:303 | The pair key identifies an unordered pair of ids exactly. |
| Projection.StringKeyCollides | src/components/app/tree/skill-tree-canvas.tsx:303 | The string key is not one-to-one. |
| Projection.StringKeyLosesEdge | src/components/app/tree/skill-tree-canvas.tsx:295-310 | With the string key, a connection between two drawn nodes is not drawn. |
| Projection.EdgesByPair | src/components/app/tree/skill-tree-canvas.tsx:295-310 | With a key per unordered pair, every edge joins a node to one of its drawn connections. No pair of ids is drawn twice, and every connection between drawn nodes is drawn. |
| Projection.FindTarget | src/components/app/tree/skill-tree-canvas.tsx:363-369 | A hit is a drawn node other than the source whose anchor lies within 72 px. No hit means that no node qualifies. |
| Projection.FindTargetFirst | src/components/app/tree/skill-tree-canvas.tsx:363-369 | The hit is the first node that qualifies. |
| Projection.Clamp | src/components/app/tree/skill-tree-canvas.tsx:338 | The result lies within the bounds, and a value already inside them is kept. |
| Projection.ToPoint | src/components/app/tree/skill-tree-canvas.tsx:335-343 | Without a container the point is the origin. Otherwise it lies inside the container's box. |
| Projection.ToPointInside | src/components/app/tree/skill-tree-canvas.tsx:335-343 | A pointer inside the container maps to its offset from the container's corner. |
| Projection.Normalized | src/components/app/tree/skill-tree-canvas.tsx:547-548 | A stored drop coordinate is always a fraction in `[0, 1]`. |
| Projection.DropRoundTrip | src/components/app/tree/skill-tree-canvas.tsx:542-550 | On a container the size of the canvas, a node dropped inside it is then drawn exactly at the drop point. |
| Connector.Canvas.constructor | src/components/app/tree/skill-tree-canvas.tsx:247-255 | A mounted canvas starts with no listeners, no frame, no active target, nothing pending and no dragged positions. |
| Connector.Canvas.RunCleanup | src/components/app/tree/skill-tree-canvas.tsx:414-422 | The cleanup removes the listeners, cancels the frame and clears the active target. |
| Connector.Canvas.StopConnection | src/components/app/tree/skill-tree-canvas.tsx:312-323 | Afterwards no listener, cleanup, frame, active target or pending line remains, and the controller invariant holds. |
| Connector.Canvas.StartConnection | src/components/app/tree/skill-tree-canvas.tsx:325-425 | On a read-only canvas or without a container nothing changes. Otherwise the previous drag is released, and a new gesture is captured whose pending line starts at the source's anchor. |
| Connector.Canvas.PointerMove | src/components/app/tree/skill-tree-canvas.tsx:354-361 | The scheduled frame is replaced by one for the clamped pointer. Without a container nothing changes. |
| Connector.Canvas.RunFrame | src/components/app/tree/skill-tree-canvas.tsx:362-385 | The active target becomes the first hit. The pending line of this drag snaps to the hit's anchor or follows the cursor, and the frame is cleared. |
| Connector.Canvas.PointerUp | src/components/app/tree/skill-tree-canvas.tsx:392-409 | Releasing connects the source to a non-empty active target in the store (never to itself), and clears the listeners, the frame, the target and the pending line. |
| Connector.Canvas.NodeClick | src/components/app/tree/skill-tree-canvas.tsx:501-505 | A click selects the node unless a connection is pending or the canvas is read-only. It never changes the skills. |
| Connector.Canvas.NodeDragEnd | src/components/app/tree/skill-tree-canvas.tsx:542-550 | On an editable canvas with a container, the clamped fraction of the drop point is stored for the node, and the invariant (every stored position is a fraction) is kept. |

## Left out

- Rendering is not modelled: the JSX, motion props, `createEdgePath`, the SVG markup and the styles.
- Browser objects are abstract. `window` listeners are the `listening` flag, an animation frame is the `frame` field, and `getBoundingClientRect()` is a parameter, `None` when the container is not mounted.
- `Math.hypot(dx, dy) <= 72` is modelled as `dx² + dy² <= 72²` over reals.
- JavaScript numbers are modelled as exact reals. Rounding of floating point is not modelled.
- Projection.Normalized: requires a positive extent, because the source divides by the container's size; a zero-sized container is not modelled.
- Connector.Canvas.NodeDragEnd: requires a container of positive width and height. A zero-sized container would divide by zero in the source, and that case is not modelled.
- `skillPositions`/`setSkillPosition`: `src/store/skill-store.ts` declares neither. As written, the overrides read `skillPositions[skill.id]` on an undefined value (skill-tree-canvas.tsx:267), which throws, and the drop handler calls an undefined function (line 549). The model supplies the evidently intended per-canvas map instead: the `positions` field of `Connector.Canvas`, empty when the canvas is constructed.
- React state updates (`set`, `setPendingConnection`) are modelled as taking effect immediately, in the order of the statements.
- The `persist` middleware, local storage and the repository calls (`createSkill`, `updateSkill`, `connectSkills`, `disconnectSkills`, `deleteSkill`) are I/O and are not modelled.
- `nanoid(4)` is the `suffix` parameter of `AddSkill`.
- SkillStore.Lower: `String.prototype.toLowerCase` is modelled on ASCII letters only. The `\s` class is modelled as space, tab, newline, carriage return, form feed and vertical tab.
- `localeCompare` and `<` on strings are both modelled as the lexicographic order on code points.
- Sorting.SortByLocallySorted: with a connection to an id that no skill has, the neighbour comparator (skill-tree-canvas.tsx:86-93) can be cyclic (`ByNameCyclic`). `Array.prototype.sort` then leaves the order implementation-defined, so the neighbour order, and with it the forest, is the one this insertion sort produces; the row describes that choice.
- The edge scan as written: a node built for a dangling id (`PhantomLaid`) has no `connections`, so `skill.connections.map` (skill-tree-canvas.tsx:299) throws on it. The edge scan is modelled over the skilled nodes only.
- `positionUnits` (a `Map`) is the list of its entries in insertion order. `PlacedOnce` shows that no key is set twice.
- `src/store/ui-store.ts`, `src/lib/api/skill-repository.ts`, the auth code and the page components are not part of this model.

## Findings

| source | as written | input that shows it | evidently intended | confidence | as-written member | corrected member |
|---|---|---|---|---|---|---|
| src/components/app/tree/skill-tree-canvas.tsx:205-213 | `skillMap.get(id)!` is spread for every placed id, and ids that are only named as connections are placed too; the edge scan then reads `connections` of such a node (line 299) and throws. | A skill whose connections name an id that no skill has (for example after `connectSkills` from a removed id). | Only skills become nodes. | not executed | Positioned.PhantomLaid | Positioned.LaidOutCovers |
| src/components/app/tree/skill-tree-canvas.tsx:303 | The edge key joins the two ids with `-`, and ids can contain `-`. | Nodes `a-b` → `c` and `a` → `b-c`: both pairs get the key `a-b-c`, so the second edge is dropped. | One key per unordered pair of ids. | not executed | Projection.StringKeyLosesEdge | Projection.EdgesByPair |
