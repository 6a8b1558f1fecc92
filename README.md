# Guillotine layout tree (gdrr-2bp `Layout`)

A `Layout` is one stock sheet cut by guillotine cuts. Its cut tree lives in an arena
of nodes: the root spans the sheet, every branch is cut into children, and every
leaf is either a placed part or waste. Beside the tree the layout keeps
`sorted_empty_nodes`, an index of every waste leaf by descending area, and two
caches: the cost and the usage.

This project models that structure and its operations in Dafny and proves what they
promise.

- **Entities** (`entities.dfy`) holds the value types: orientation, part and sheet
  types, the node record, the usage fraction, and the node and insertion blueprints.
  It also holds the preorder numbering of a blueprint forest, which is the order in
  which an insertion creates handles.
- **Arena** (`arena.dfy`) holds the tree as a `map<Handle, Node>`.
  - A fresh handle is taken for every new node, so a child's handle is larger than
    its parent's and handle order is creation order.
  - It defines subtrees, the invariants (`Rooted`, `IndexShape`, `CompleteFor`) and
    the two edits `Attach` and `Prune`.
  - It defines the folds the layout queries use: part ids, used area, cost and
    removable nodes.
  - It proves the lemmas that carry those invariants through the edits.
- **Layouts** (`layout.dfy`) holds the operations on the arena and the index, as
  methods over values. Each operation is proved against its invariants and against
  a definition of its outcome:
  - `RegisterIn` for `register_node`;
  - `UnregisterSubtree` for `unregister_node`;
  - `BuildNode` and `BuildForest` for `implement_node_blueprint`;
  - `InsertIn` for `implement_insertion_blueprint`;
  - `RemoveIn` for `remove_node`.

  It also holds the class `Layout`. The class has the fields of the source and
  thin methods that update those fields through the value-level operations. The
  class methods do not call each other: `ImplementInsertion` and `RemoveNode` use
  `InsertIn` and `RemoveIn` directly, not the class's `Register`, `Unregister` and
  `ImplementNode`. The operations share the two primitives `RegisterIn` and
  `UnregisterSubtree` at the value level only. The class
  invariant `Valid` is the conjunction of:
  - the tree shape;
  - an index that is sorted, holds no duplicates and holds only waste leaves;
  - a complete index;
  - correct caches.

`remove_node` works in three ways:
- **merge:** the target and its first empty sibling become one waste leaf,
  stacked along the parent's cut;
- **convert:** the target becomes a waste leaf of its own size;
- **collapse:** the parent becomes a waste leaf below the grandparent.

`PlanFor(N, h, keep)` states which case applies, with `keep` as the threshold in the
guard. `Layout.RemoveNode` uses the guard as written (`keep` 1), and
`Layout.RemoveNodeIntended` uses the corrected guard (`keep` 2); see "Findings". `RemovedBy` states the outcome: exactly the planned handles are gone, the new
waste leaf is the last child of the planned node, and every part id is either kept or
returned.

`is_empty` is modelled as written: every node is a waste leaf. It is therefore false
on the seed layout, whose root is a branch. The model proves the direction that
holds: an empty layout places no part.

## Model

| member | source | states |
|---|---|---|
| Entities.Orientation.Rotate | src/core/entities/layout.rs:41 | the placeholder's orientation differs from the root's |
| Entities.NewNode | src/core/entities/layout.rs:76-77 | a node as built is unlinked and has no children, and it is a waste leaf exactly when it holds no part |
| Entities.BlueprintPartsMembership | src/core/entities/layout.rs:74-85 | an id is among the parts a blueprint list places exactly when one of its nodes names that part |
| Entities.HandleRangeJoin | src/core/entities/layout.rs:80-84 | the handles created by consecutive builds join into one increasing range |
| Arena.FirstEmpty | src/core/entities/layout.rs:124 | the search finds nothing exactly when no child is a waste leaf; a hit is an empty child, and it is the first child when that one is empty |
| Arena.PartIdsMembership | src/core/entities/layout.rs:305-310 | an id is listed exactly when a node of the set holds a part with that id |
| Arena.PartsSplit | src/core/entities/layout.rs:281-286 | the part ids of two disjoint node sets are, as a multiset, the ids of each set together |
| Arena.PartsAbsent | src/core/entities/layout.rs:312-314 | an arena in which no node holds a part lists no part id |
| Arena.RemovableBelow | src/core/entities/layout.rs:373-379 | exactly the nodes that hold a part or have children, each once, in increasing handle order |
| Arena.IndexInsert | src/core/entities/layout.rs:219-231 | inserting a waste leaf between the larger and the smaller entries keeps the index distinct, waste-only and by descending area |
| Arena.PruneAttach | src/core/entities/layout.rs:147-150 | unregistering a set that hangs from one node only, then registering a leaf below that node, removes exactly that set and adds exactly the leaf |
| Arena.GrownLevels | src/core/entities/layout.rs:76-77 | every node appended below a parent points back to it and sits one level deeper |
| Arena.BuiltParts | src/core/entities/layout.rs:74-85 | after building a blueprint forest the layout's part ids are the old ones followed by the ids the forest names, in creation order |
| Layouts.AppendedTrans | src/core/entities/layout.rs:274-286 | an accumulator extended twice keeps its prefix and gains both sets of ids |
| Layouts.BinarySearchByArea | src/core/entities/layout.rs:221-228 | the position returned splits the index into entries of at least and at most the new area; `Ok` means an entry of equal area is there, `Err` that none is |
| Layouts.PartitionPoint | src/core/entities/layout.rs:248-250 | the position returned is where the larger entries (or the larger-or-equal ones) end |
| Layouts.FindInIndex | src/core/entities/layout.rs:246-270 | searching the band of equal area finds the node's position; the "not found" panic happens exactly when the node is not indexed |
| Layouts.InsertSorted | src/core/entities/layout.rs:218-231 | the new waste leaf is indexed once, the order is kept and the other entries are unchanged |
| Layouts.RemoveSorted | src/core/entities/layout.rs:246-270 | exactly that handle leaves the index, and the other entries keep their order |
| Layouts.RegisterPreserves | src/core/entities/layout.rs:206-240 | registering keeps the tree rooted and linked and the index sorted; the parent leaves the set of unindexed waste leaves allowed, and the new node joins it when it is not declared empty |
| Layouts.RegisterIn | src/core/entities/layout.rs:206-240 | the node is stored under the fresh handle as the parent's last child; the index gains it exactly when it is declared empty, and the invariants are preserved |
| Layouts.UnregisterPreserves | src/core/entities/layout.rs:242-295 | removing a subtree keeps the tree rooted and the index sorted, and only the old parent may become an unindexed waste leaf; every part id is kept or removed |
| Layouts.UnregisterSubtree | src/core/entities/layout.rs:242-295 | exactly the subtree leaves the arena and the index, and the accumulator, when present, gains exactly the subtree's part ids |
| Layouts.UnregisterIn | src/core/entities/layout.rs:242-295 | `UnregisteredBy`: unregistering removes exactly the subtree from the arena and the index, its part ids go to the accumulator, and the part ids split into those kept and those removed; every invariant holds except completeness at the old parent |
| Layouts.UnregisterChild | src/core/entities/layout.rs:274-275 | `ChildrenGone`: after the k-th child is unregistered, exactly the subtrees of the first k+1 children are gone from the arena and the index, and their part ids are appended to the accumulator |
| Layouts.UnregisterChildren | src/core/entities/layout.rs:273-276 | the loop over the node's children leaves every child subtree pruned from the arena and the index, with their part ids collected in child order |
| Layouts.BuildNode | src/core/entities/layout.rs:74-85 | the blueprint's nodes get consecutive fresh handles in preorder, each realising its blueprint one level below its parent; the created handles are reported in that order and the invariants are kept |
| Layouts.BuildChildren | src/core/entities/layout.rs:82-84 | the loop over the child blueprints builds each child tree after the previous one, keeping the invariants, with the created handles following in preorder |
| Layouts.ImplementNodeIn | src/core/entities/layout.rs:74-85 | building a blueprint tree below a parent creates consecutive fresh handles and grows the part ids by exactly the blueprint's, in preorder |
| Layouts.BuildForest | src/core/entities/layout.rs:62-66 | the replacements are built left to right below the parent; their roots are appended to its children and every created handle is reported |
| Layouts.InsertIn | src/core/entities/layout.rs:54-72 | the original leaves with its subtree and the replacement forest takes its place under the same parent; part ids are conserved and the index stays complete unless no replacement is given |
| Layouts.GrowReplacements | src/core/entities/layout.rs:62-67 | once the original is pruned, building the replacements left to right under the parent completes `InsertedBy`: the part ids end up as those kept followed by the replacements', the created handles are reported in creation order, and the index is complete unless the list is empty |
| Layouts.InsertedLevels | src/core/entities/layout.rs:76-77 | each replacement root is a child of the original's parent, one level below it |
| Layouts.Merged | src/core/entities/layout.rs:136-146 | the merged waste leaf keeps the target's level and orientation; its height is summed under a Horizontal cut and its width under a Vertical one |
| Layouts.MergedArea | src/core/entities/layout.rs:136-146 | when the two pieces share the side across the cut, the merged leaf's area is the sum of their areas |
| Layouts.ReplaceIn | src/core/entities/layout.rs:147-173 | unregistering a subtree and registering a waste leaf under its parent keeps every invariant and returns exactly the subtree's part ids |
| Layouts.ConvertIn | src/core/entities/layout.rs:162-174 | the target's subtree is replaced by a waste leaf of the same level, size and orientation under the same parent |
| Layouts.DropEmptySibling | src/core/entities/layout.rs:148 | unregistering the empty sibling removes no part id and leaves the target's subtree untouched |
| Layouts.MergeIn | src/core/entities/layout.rs:132-151 | the target's subtree and the empty sibling are replaced by the merged leaf under the parent, and exactly the target's part ids are returned |
| Layouts.MergeReplaced | src/core/entities/layout.rs:148-150 | the two unregistrations and the registration remove exactly the target's subtree and the sibling, and add exactly the merged leaf |
| Layouts.MergeParts | src/core/entities/layout.rs:148-149 | the ids removed by a merge are those of the target's subtree and the sibling together |
| Layouts.RemoveIn | src/core/entities/layout.rs:87-181 | the tree changes exactly as the plan for the guard's threshold says, the ids returned are the parts of the handles that go, and every invariant holds again |
| Layouts.AsWrittenNeverCollapses | src/core/entities/layout.rs:131 | with the guard as written, a removable target's parent always has more than one child, so the collapse branch never runs |
| Layouts.AsWrittenLeavesOnlyChild | src/core/entities/layout.rs:131-151 | with the guard as written, a non-root branch holding only the target and a waste leaf keeps the merged leaf as its single child |
| Layouts.CorrectedCollapses | src/core/entities/layout.rs:152-161 | with the intended guard, that branch goes, and a waste leaf of its full size is attached to the grandparent |
| Layouts.SeedArena | src/core/entities/layout.rs:25-45 | the new arena holds exactly the root and the placeholder, rooted and indexed, with no used area |
| Layouts.Layout.constructor | src/core/entities/layout.rs:25-45 | the root spans the sheet with the given orientation, the placeholder waste leaf of the same size, rotated, is its only child and is indexed; the layout is valid with zero usage |
| Layouts.Layout.IncludedPartsMembership | src/core/entities/layout.rs:305-310 | a part id is included exactly when some node holds that part |
| Layouts.Layout.Register | src/core/entities/layout.rs:206-240 | the fresh handle is returned and linked below the parent, the index gains it exactly when the caller declares it empty, and both caches are cleared |
| Layouts.Layout.ImplementNode | src/core/entities/layout.rs:74-85 | the blueprint tree is built below the parent in preorder, the created handles are appended in creation order, and the part ids grow by exactly those the blueprint names |
| Layouts.Layout.Unregister | src/core/entities/layout.rs:242-295 | `UnregisteredBy`: the subtree leaves the arena and the index, its part ids go to the accumulator, and the arena's part ids shrink by exactly those; the invariants hold except at the old parent, and both caches are cleared |
| Layouts.Layout.ImplementInsertion | src/core/entities/layout.rs:54-72 | the original is reported as removed and every created handle as added, in creation order; the tree and the part ids change as `InsertedBy` says |
| Layouts.Layout.RemoveNode | src/core/entities/layout.rs:87-181 | the layout stays valid, the tree changes as the plan with the guard as written (`keep` 1) says, and the ids returned are exactly the parts removed |
| Layouts.Layout.RemoveNodeIntended | src/core/entities/layout.rs:131-161 | with the intended guard (`keep` 2) the layout stays valid, the tree changes as that plan says, and the ids returned are exactly the parts removed |
| Layouts.Layout.InvalidateCaches | src/core/entities/layout.rs:183-186 | both caches are cleared |
| Layouts.Layout.Cost | src/core/entities/layout.rs:316-327 | the result always equals the recomputed cost; it is the cached value when that is used, and afterwards the cost is cached |
| Layouts.Layout.CostImmut | src/core/entities/layout.rs:329-339 | cached or recomputed, the result equals the recomputed cost |
| Layouts.Layout.Usage | src/core/entities/layout.rs:341-352 | the result always equals the recomputed usage; it is the cached value when that is used, and afterwards the usage is cached |
| Layouts.Layout.UsageImmut | src/core/entities/layout.rs:354-364 | cached or recomputed, the result equals the recomputed usage |
| Layouts.Layout.IsEmpty | src/core/entities/layout.rs:312-314 | a layout in which every node is a waste leaf includes no part |
| Layouts.Layout.SortedEmptyNodes | src/core/entities/layout.rs:366-371 | in a valid layout the index holds exactly the waste leaves, each once, by descending area |
| Layouts.Layout.RemovableNodes | src/core/entities/layout.rs:373-379 | exactly the nodes that hold a part or have children, each once |

## Left out

- The generational arena is a map with a counter of fresh handles. Handles are never reused, so generation tags are not modelled.
- Iteration over the arena follows handle order, which is creation order. The source follows slot order. `IncludedParts` and `RemovableNodes` list their elements in handle order.
- `calculate_usage` divides two integers as `f64`. The model keeps the exact `Fraction` of used area over sheet area.
- `Cost` and `Node::calculate_cost` are external. Each node's cost is the layout's `nodeCost` function, added to the sheet's material cost.
- `Instance::get_parttype` is a catalog map, and `CatalogConsistent` is required of that map. `IOCUpdates` is the `Updates` pair of handle lists.
- `node.rs` is not part of this model. `Node::is_empty` is taken to mean "no part and no children".
- Omitted operations:
  - `clone_with_id`, which is a deep copy;
  - the read accessors `sheettype`, `top_node_index`, `nodes` and `id`;
  - `register_part` and `unregister_part`, which only clear the caches.
- The debug assertions become the predicates of `Valid`. `assertions::children_nodes_fit`, the geometric check that children fill their parent, is not part of this model.
- Panics and `expect` calls become preconditions: the target of a removal or an insertion must have a parent. The collapse is taken only below a parent that has a parent of its own, so the `expect` on the grandparent at layout.rs:154 cannot fail and needs no precondition.
- Layouts.RemoveIn: the target must hold a part or have children. With an empty target, the source can pick the target itself as its "empty sibling" and unregister it twice.
- Layouts.Layout.RemoveNode: the ids returned are stated as a multiset. Their postorder sequence is not stated. The same holds for `RemoveNodeIntended`.
- Layouts.UnregisterSubtree: the accumulator gains the subtree's part ids as a multiset. Their postorder sequence is not stated.
- Layouts.Layout.ImplementInsertion:
  - each replacement blueprint must be well formed: its emptiness flag must agree with "no part and no children". The source relies on the same flag at layout.rs:219.
  - with no replacements, the index is proved complete only away from the original's parent.
- Layouts.Layout.CostImmut: requires that the caches are correct, which `Valid` includes.
- Layouts.Layout.UsageImmut: requires that the caches are correct, which `Valid` includes.

## Findings

| source | as written | input that shows it | evidently intended | confidence | as-written member | corrected member |
|---|---|---|---|---|---|---|
| src/core/entities/layout.rs:131 | `parent_node.children().len() > 1 \|\| parent_node.parent().is_none()` chooses the merge | a branch that is not the root, with exactly two children: a leaf holding a part and a waste leaf; remove the part leaf | use `len() > 2`, so that this branch collapses into one waste leaf of its full size under the grandparent (the branch would otherwise keep a single child) | high; not executed | Layouts.AsWrittenNeverCollapses, Layouts.AsWrittenLeavesOnlyChild (`PlanFor` and `RemoveIn` with `keep` 1) | Layouts.CorrectedCollapses, Layouts.Layout.RemoveNodeIntended (`keep` 2) |
