# Battle, grid and UI bookkeeping of the Unity game, in Dafny

This project models the in-memory logic of a small Unity game. It covers the
battle code, the grid code and the UI panel bookkeeping. Each source file is
one Dafny module:

- `quadtree.dfy` (`BattleQuadTree`) covers the battle code's point quadtree.
  - A node holds a rectangle, a capacity, a level, an object list and a
    four-slot child array.
  - `Insert` routes a point down by comparing it with each node's midpoints
    and appends it where routing stops.
  - A node that then holds more than its capacity below `MaxDepth` (5) splits
    into four half-size children and pushes its routable objects one level
    down.
  - There are two layers. The first is an abstract value `Tree` with the
    function `InsertInto` and the lemmas about it: conservation of the stored
    objects, the shape invariant, the depth bound and the routing quirk. The
    second is the classes `QuadTreeNode` and `QuadTree`, which do the same work
    in place on arrays and lists and are proved to follow `InsertInto`.
- `grid.dfy` (`GridStore`) covers the generic column-by-row grid store.
  - It has bounds-checked reads and writes, and every write raises a change
    event.
  - It converts between cell indices and world positions.
- `entity.dfy` (`Entities`) covers the entity component registry, with one
  component per component type.
- `entity_manager.dfy` (`EntityManagement`) covers the entity registry. Ids
  come from a serial counter that only grows.
- `battle_system.dfy` (`BattleTargeting`) covers target selection: the first
  other entity with a position and health within the battle radius.
- `ui_system.dfy` (`UISorting`) covers the UI system's bookkeeping:
  - the per-layer sorting-order lists;
  - the active-panel list;
  - the panel stack;
  - the focused panel.
- `wrappers.dfy` (`Wrappers`) holds the `Option` type. It stands for the
  source's null and `default(T)` answers.

Source paths below are relative to the repository root.

## Model

| member | source | states |
|---|---|---|
| BattleQuadTree.GetChildIndex | Assets/Scripts/Game/Battle/QuadTree/QuadTree.cs:106-150 | the child index is always one of -1, 0, 1, 2, 3 |
| BattleQuadTree.GetChildIndexFollowsDiagram | Assets/Scripts/Game/Battle/QuadTree/QuadTree.cs:95-150 | -1 exactly when the point lies on the vertical or the horizontal midpoint line; otherwise 1 for left and above, 2 for left and below, 0 for right and above, 3 for right and below, as the diagram draws it |
| BattleQuadTree.SplitRects | Assets/Scripts/Game/Battle/QuadTree/QuadTree.cs:152-167 | SplitNode's four child rectangles in slot order; SplitRectsTile and SplitRectsDisjoint prove they have half the parent's size, cover it exactly and do not overlap |
| BattleQuadTree.SplitRectsTile | Assets/Scripts/Game/Battle/QuadTree/QuadTree.cs:152-167 | the four child rectangles have half the parent's width and height, and a point lies in the parent exactly when it lies in one of them |
| BattleQuadTree.SplitRectsDisjoint | Assets/Scripts/Game/Battle/QuadTree/QuadTree.cs:159-166 | no point lies in two child rectangles |
| BattleQuadTree.RoutedChildMissesPosition | Assets/Scripts/Game/Battle/QuadTree/QuadTree.cs:109-166 | a routed point never lies inside the boundary of the child it is routed to, because routing sends larger y to slots 0/1 while SplitNode gives those slots the lower-y halves |
| BattleQuadTree.RoutedPositionInMirroredChild | Assets/Scripts/Game/Battle/QuadTree/QuadTree.cs:109-166 | a routed point inside the parent lies in the slot mirrored across the horizontal midpoint (3 - index) |
| BattleQuadTree.Routed | Assets/Scripts/Game/Battle/QuadTree/QuadTree.cs:78-91 | every object a redistribution pass sends to one destination has that child index, and there are no more of them than objects |
| BattleQuadTree.RoutedAppend | Assets/Scripts/Game/Battle/QuadTree/QuadTree.cs:78-91 | routing keeps list order: the objects routed from two lists in a row are the first list's routed objects followed by the second's |
| BattleQuadTree.RoutedSingle | Assets/Scripts/Game/Battle/QuadTree/QuadTree.cs:80-90 | a single object goes to the destination its child index names and to no other |
| BattleQuadTree.RoutedPartition | Assets/Scripts/Game/Battle/QuadTree/QuadTree.cs:78-91 | the objects kept and the four lists moved to the children together are the original objects, as a multiset: nothing copied, nothing dropped |
| BattleQuadTree.RoutedUnroutable | Assets/Scripts/Game/Battle/QuadTree/QuadTree.cs:78-91 | objects that all lie on a midpoint line all stay, in order, and none move |
| BattleQuadTree.Distribute | Assets/Scripts/Game/Battle/QuadTree/QuadTree.cs:78-91 | the redistribution loop on a split node: index -1 objects stay in order, each other object is appended in order to its child; DistributeConserves proves nothing is copied or dropped and DistributeUnroutable that midpoint objects leave the children alone |
| BattleQuadTree.InsertInto | Assets/Scripts/Game/Battle/QuadTree/QuadTree.cs:56-93 | insertion keeps the node's boundary, capacity and level |
| BattleQuadTree.DistributeConserves | Assets/Scripts/Game/Battle/QuadTree/QuadTree.cs:78-91 | after redistribution the subtree holds the children's old objects plus the redistributed ones, exactly |
| BattleQuadTree.Absorb | Assets/Scripts/Game/Battle/QuadTree/QuadTree.cs:69-91 | storing at the node where routing stops: append, and when over capacity below MaxDepth split if needed and redistribute; AbsorbAddsOne, AbsorbOnMidpoint and AbsorbPreservesInvariant state its effect |
| BattleQuadTree.AbsorbAddsOne | Assets/Scripts/Game/Battle/QuadTree/QuadTree.cs:69-91 | storing at the node where routing stops, with any split and redistribution, adds exactly one occurrence of the object to the subtree |
| BattleQuadTree.InsertAddsOne | Assets/Scripts/Game/Battle/QuadTree/QuadTree.cs:56-93 | one insertion adds exactly one occurrence of the object to the multiset of all stored objects (duplicates allowed) |
| BattleQuadTree.InsertChangesOnlyRoutedChild | Assets/Scripts/Game/Battle/QuadTree/QuadTree.cs:58-66 | at a node with children and a child index other than -1, only that child changes, and it gains the object; the node's own list and the other children stay the same |
| BattleQuadTree.LeafSplitsWhenOverfull | Assets/Scripts/Game/Battle/QuadTree/QuadTree.cs:71-76 | a leaf gets children exactly when it then holds more than its capacity and its level is below MaxDepth |
| BattleQuadTree.DistributeUnroutable | Assets/Scripts/Game/Battle/QuadTree/QuadTree.cs:78-91 | redistributing objects that all lie on a midpoint line changes nothing but the node's list |
| BattleQuadTree.AbsorbOnMidpoint | Assets/Scripts/Game/Battle/QuadTree/QuadTree.cs:69-91 | at a split node whose objects all lie on a midpoint line, storing another such object only appends it |
| BattleQuadTree.FreshSplitInvariant | Assets/Scripts/Game/Battle/QuadTree/QuadTree.cs:71-91 | splitting a leaf below MaxDepth and redistributing gives the shape invariant: four tiling children one level deeper with the same capacity, and only midpoint objects left at the node |
| BattleQuadTree.AbsorbPreservesInvariant | Assets/Scripts/Game/Battle/QuadTree/QuadTree.cs:69-91 | storing an object where routing stops keeps the shape invariant |
| BattleQuadTree.InsertPreservesInvariant | Assets/Scripts/Game/Battle/QuadTree/QuadTree.cs:56-93 | insertion keeps the shape invariant: all four children or none, children only below MaxDepth, children are the split halves, a split node keeps only midpoint objects |
| BattleQuadTree.LevelBound | Assets/Scripts/Game/Battle/QuadTree/QuadTree.cs:44-76 | in a tree that keeps the invariant, level plus height never exceeds MaxDepth, so no node deeper than 5 exists and no node at level 5 has children |
| BattleQuadTree.ChildMayExceedCapacity | Assets/Scripts/Game/Battle/QuadTree/QuadTree.cs:78-91 | a concrete insertion after which a child holds more objects than its capacity, because redistribution never checks the child's capacity |
| BattleQuadTree.QuadTreeNode.constructor | Assets/Scripts/Game/Battle/QuadTree/QuadTree.cs:16-23 | a new node has the given boundary, capacity and level, no objects and four empty slots |
| BattleQuadTree.QuadTreeNode.Clear | Assets/Scripts/Game/Battle/QuadTree/QuadTree.cs:25-37 | afterwards the node is an empty leaf: an empty object list and four null slots |
| BattleQuadTree.QuadTreeNode.ClearSlot | Assets/Scripts/Game/Battle/QuadTree/QuadTree.cs:29-36 | one iteration of Clear's loop: the old child in slot i is itself cleared to an empty leaf, then slot i is nulled, and the other slots stay as they were |
| BattleQuadTree.QuadTreeNode.Adopt | Assets/Scripts/Game/Battle/QuadTree/QuadTree.cs:159-166 | filling the four slots gives the node exactly those four children |
| BattleQuadTree.QuadTreeNode.AddObject | Assets/Scripts/Game/Battle/QuadTree/QuadTree.cs:69 | `Objects.Add` appends the object at the end of the node's list |
| BattleQuadTree.QuadTreeNode.RemoveAt | Assets/Scripts/Game/Battle/QuadTree/QuadTree.cs:85 | `Objects.RemoveAt(i)` deletes exactly position i and keeps the others in order |
| BattleQuadTree.QuadTree.constructor | Assets/Scripts/Game/Battle/QuadTree/QuadTree.cs:46-49 | a new tree is one empty leaf at level 0 |
| BattleQuadTree.QuadTree.Insert | Assets/Scripts/Game/Battle/QuadTree/QuadTree.cs:51-54 | the tree becomes InsertInto of the old tree, keeps the invariant, and stores exactly one more occurrence of the object |
| BattleQuadTree.QuadTree.InsertRecursive | Assets/Scripts/Game/Battle/QuadTree/QuadTree.cs:56-93 | the in-place recursion changes the node's subtree exactly as InsertInto does |
| BattleQuadTree.QuadTree.InsertIntoChild | Assets/Scripts/Game/Battle/QuadTree/QuadTree.cs:58-66 | the routing step inserts into child index and touches no other child |
| BattleQuadTree.QuadTree.Store | Assets/Scripts/Game/Battle/QuadTree/QuadTree.cs:69-92 | appending, then splitting and redistributing when over capacity below MaxDepth, gives Absorb of the old node |
| BattleQuadTree.QuadTree.Redistribute | Assets/Scripts/Game/Battle/QuadTree/QuadTree.cs:78-91 | the while loop with its index i leaves at the node exactly the objects with index -1, in order, and appends every other object, in order, to its child (Distribute) |
| BattleQuadTree.QuadTree.MoveToChild | Assets/Scripts/Game/Battle/QuadTree/QuadTree.cs:84-85 | one moving iteration: the object at i goes to the end of child index's list and leaves the node's list |
| BattleQuadTree.QuadTree.AddToChild | Assets/Scripts/Game/Battle/QuadTree/QuadTree.cs:84 | the child's list gains the object at its end and nothing else changes |
| BattleQuadTree.QuadTree.SplitNode | Assets/Scripts/Game/Battle/QuadTree/QuadTree.cs:152-167 | the node gets four fresh empty children with the split rectangles, level + 1 and the parent's capacity |
| GridStore.FloorToInt | Assets/Dev/Sonaru/Scripts/Grid.cs:52-53 | the result is the largest integer not above the argument |
| GridStore.ColumnEvents | Assets/Dev/Sonaru/Scripts/Grid.cs:29-32 | the inner loop over one column raises one event per row, event y naming cell (x, y) with createData(x, y) |
| GridStore.FillEvents | Assets/Dev/Sonaru/Scripts/Grid.cs:27-33 | filling raises one event per cell |
| GridStore.FillEventsVisitCellsInOrder | Assets/Dev/Sonaru/Scripts/Grid.cs:27-33 | the n-th fill event is for cell (n / rows, n % rows) and carries createData of that cell: column by column, then row by row |
| GridStore.Grid.constructor | Assets/Dev/Sonaru/Scripts/Grid.cs:18-34 | the array is sized [ColumnNumber, RowNumber], every existing cell holds createData(x, y), and the events raised are exactly the fill events in loop order |
| GridStore.Grid.CheckCellExist | Assets/Dev/Sonaru/Scripts/Grid.cs:37-40 | a cell exists exactly when 0 <= x < ColumnNumber and 0 <= y < RowNumber; GetData and SetData use it to decide between the array and the default or no-op |
| GridStore.Grid.GetWorldPosition | Assets/Dev/Sonaru/Scripts/Grid.cs:43-46 | world x and z are the offset plus the cell size times the x and y index; world y is the offset's y; GridStore.Grid.GridIndexOfWorldPosition proves GetGridIndex maps the result back to the same cell for any non-zero cell size |
| GridStore.Grid.GetGridIndex | Assets/Dev/Sonaru/Scripts/Grid.cs:49-55 | for a positive cell size, the position lies in the half-open span of the returned cell, in x and in z |
| GridStore.Grid.GetData | Assets/Dev/Sonaru/Scripts/Grid.cs:75-81 | a cell that does not exist reads as the default value |
| GridStore.Grid.GetDataAtWorld | Assets/Dev/Sonaru/Scripts/Grid.cs:84-89 | a world position outside the grid reads as the default value |
| GridStore.Grid.SetData | Assets/Dev/Sonaru/Scripts/Grid.cs:58-65 | an existing cell then reads as the new value, every other cell is unchanged, and exactly one change event (x, y, data) is raised; a missing cell changes nothing and raises nothing |
| GridStore.Grid.SetDataAtWorld | Assets/Dev/Sonaru/Scripts/Grid.cs:68-72 | SetData at GetGridIndex of the position |
| GridStore.Grid.GridIndexOfWorldPosition | Assets/Dev/Sonaru/Scripts/Grid.cs:43-55 | with exact arithmetic and a non-zero cell size, GetGridIndex(GetWorldPosition(i, j)) is (i, j) |
| GridStore.Grid.GetDataAtWorldPosition | Assets/Dev/Sonaru/Scripts/Grid.cs:84-89 | the world-position read at a cell's world position is that cell's index read |
| Entities.Lookup | Assets/Scripts/Game/Battle/Entities/Entity.cs:26-36 | the lookup finds something exactly when the key is present, and then finds the stored component |
| Entities.Entity.BattleEntity | Assets/Scripts/Game/Battle/Entities/Entity.cs:62-82 | all three adds succeed, so the Log.Error branches are unreachable, and the entity holds exactly a transform, a battle and a health component |
| Entities.Entity.TryAddComponent | Assets/Scripts/Game/Battle/Entities/Entity.cs:15-24 | false with the dictionary unchanged when the type is present; otherwise true with exactly that type-to-component pair added |
| Entities.Entity.TryGetComponent | Assets/Scripts/Game/Battle/Entities/Entity.cs:26-36 | true with the stored component, which has the requested type, exactly when the type is present; otherwise false with the default (none) |
| Entities.Entity.TryRemoveComponent | Assets/Scripts/Game/Battle/Entities/Entity.cs:38-47 | true exactly when the type was present; only that key is deleted |
| Entities.AddThenGet | Assets/Scripts/Game/Battle/Entities/Entity.cs:15-36 | adding a component of a missing type and then getting that type yields the added component |
| Entities.RemoveThenGet | Assets/Scripts/Game/Battle/Entities/Entity.cs:26-47 | removing a type and then getting it fails with the default |
| EntityManagement.EntityManager.constructor | Assets/Scripts/Game/Battle/EntityManager.cs:12-14 | the counter starts at 0 and the dictionary empty |
| EntityManagement.EntityManager.TryAddEntity | Assets/Scripts/Game/Battle/EntityManager.cs:16-27 | false with counter, dictionary and id unchanged when the entity's id is a key; otherwise true, the counter rises by exactly 1, the entity's id becomes the counter and the entity is stored under it; the new id exceeds every existing key; an entity with id 0 is always accepted; every key stays within 1..counter |
| EntityManagement.EntityManager.TryGetEntity | Assets/Scripts/Game/Battle/EntityManager.cs:29-32 | a plain lookup with no state change: the stored entity or null |
| EntityManagement.EntityManager.TryRemoveEntity | Assets/Scripts/Game/Battle/EntityManager.cs:34-37 | true exactly when the id is present; only that key is deleted and the counter is untouched, so the id is never handed out again |
| EntityManagement.EntityManager.Entries | Assets/Scripts/Game/Battle/EntityManager.cs:48-51 | the battle system sees one entry per listed key, in the listed order |
| EntityManagement.EntityManager.Update | Assets/Scripts/Game/Battle/EntityManager.cs:48-51 | the log is the battle system's over the stored entities, each listed once, so it has at most one attack per entity; with BattleTargeting.UpdateLogsExactlyTheHits applied to those entries, every armed entity whose search succeeds attacks its first match, and nothing else is logged |
| BattleTargeting.TransformOf | Assets/Scripts/Game/Battle/Systems/BattleSystem.cs:49-52 | an entity's transform is found exactly when a transform component is stored |
| BattleTargeting.BattleOf | Assets/Scripts/Game/Battle/Systems/BattleSystem.cs:17-20 | an entity's battle component is found exactly when one is stored |
| BattleTargeting.HasHealth | Assets/Scripts/Game/Battle/Systems/BattleSystem.cs:54-57 | TryGetComponent<HealthComponent> succeeds exactly when a health component is stored |
| BattleTargeting.Int32 | Assets/Scripts/Game/Battle/Systems/BattleSystem.cs:70-73 | C#'s unchecked int arithmetic wraps into [-2^31, 2^31) and is the identity on that range |
| BattleTargeting.IsInRangeAsWritten | Assets/Scripts/Game/Battle/Systems/BattleSystem.cs:68-74 | the range test with every int operation wrapped to 32 bits; IsInRangeAsWrittenOverflows shows it accepts an entity 46341 away at radius 1, AsWrittenAgreesOnSmallCoordinates that it agrees with IsInRange within ±16383, IsInRangeSymmetric that it is symmetric |
| BattleTargeting.IsInRange | Assets/Scripts/Game/Battle/Systems/BattleSystem.cs:68-74 | the intended test, squared distance at most squared radius; symmetric (IsInRangeSymmetric), monotone in the radius (IsInRangeMonotone), blind to the radius's sign (RadiusSignIgnored), and equal to the written test within ±16383 |
| BattleTargeting.IsInRangeAsWrittenOverflows | Assets/Scripts/Game/Battle/Systems/BattleSystem.cs:68-74 | two positions 46341 apart count as in range for radius 1 as written, and not as intended |
| BattleTargeting.AsWrittenAgreesOnSmallCoordinates | Assets/Scripts/Game/Battle/Systems/BattleSystem.cs:68-74 | with all coordinates within ±16383 nothing wraps and the written test is the intended one |
| BattleTargeting.IsInRangeSymmetric | Assets/Scripts/Game/Battle/Systems/BattleSystem.cs:70-73 | the range test, as written and as intended, does not depend on the order of the two transforms |
| BattleTargeting.RadiusSignIgnored | Assets/Scripts/Game/Battle/Systems/BattleSystem.cs:73 | only the square of the radius is used, so a negative radius acts like its absolute value |
| BattleTargeting.IsInRangeMonotone | Assets/Scripts/Game/Battle/Systems/BattleSystem.cs:73 | the test is inclusive and monotone: whatever is in range stays in range for a larger radius |
| BattleTargeting.IsTarget | Assets/Scripts/Game/Battle/Systems/BattleSystem.cs:41-62 | the checks of one search step: another id, a transform, a health component and in range; FindTargetEntity returns the first entry passing it, None exactly when none does |
| BattleTargeting.FindTargetEntity | Assets/Scripts/Game/Battle/Systems/BattleSystem.cs:36-66 | the first entry in enumeration order that passes every check; null exactly when none passes; never the searcher's own id, never an entity without a transform or a health component |
| BattleTargeting.UpdateFrom | Assets/Scripts/Game/Battle/Systems/BattleSystem.cs:12-33 | one log line at most per visited entity |
| BattleTargeting.UpdateFromMembers | Assets/Scripts/Game/Battle/Systems/BattleSystem.cs:12-31 | every logged attacker is a visited entity and every logged target an entity of the searched dictionary |
| BattleTargeting.Update | Assets/Scripts/Game/Battle/Systems/BattleSystem.cs:10-34 | the only effect is the attack log: at most one line per entity, with attacker and target two different entities of the dictionary |
| BattleTargeting.Armed | Assets/Scripts/Game/Battle/Systems/BattleSystem.cs:14-25 | the outer loop searches for an entity exactly when it has both a battle and a transform component; UpdateFromLogsFirstMatch proves every attacker is armed |
| BattleTargeting.SearchFor | Assets/Scripts/Game/Battle/Systems/BattleSystem.cs:28 | the search the outer loop runs, FindTargetEntity with the entity's own id, transform and battle radius; UpdateLogsExactlyTheHits proves the log holds exactly the successful searches |
| BattleTargeting.UpdateFromLogsEveryHit | Assets/Scripts/Game/Battle/Systems/BattleSystem.cs:14-31 | every visited entity with a battle and a transform component whose search finds a target logs an attack on that target |
| BattleTargeting.UpdateFromLogsFirstMatch | Assets/Scripts/Game/Battle/Systems/BattleSystem.cs:14-31 | every logged attack is its attacker's own search result: the attacker is armed and the target is FindTargetEntity's first match |
| BattleTargeting.UpdateFromAppend | Assets/Scripts/Game/Battle/Systems/BattleSystem.cs:12-33 | the log follows the outer loop's order: visiting one run of entities after another logs the first run's attacks before the second's |
| BattleTargeting.UpdateFromCons | Assets/Scripts/Game/Battle/Systems/BattleSystem.cs:12-33 | the first visited entity's line comes before every line of the rest of the loop |
| BattleTargeting.UpdateFromSingle | Assets/Scripts/Game/Battle/Systems/BattleSystem.cs:14-31 | one visit logs exactly one line when the entity is armed and its search finds a target, and nothing otherwise |
| BattleTargeting.UpdateLogsExactlyTheHits | Assets/Scripts/Game/Battle/Systems/BattleSystem.cs:10-34 | over the whole dictionary, every armed entity whose search succeeds attacks the target found, and every logged attack is such a search's first match |
| BattleTargeting.NoHealthNoAttack | Assets/Scripts/Game/Battle/Systems/BattleSystem.cs:12-33 | when no entity has a health component, nothing is logged |
| UISorting.IndexOf | Assets/Scripts/Framework/UI/UISystem.cs:310 | List.IndexOf: the first position holding the value, or -1 exactly when it is absent |
| UISorting.RemoveFirst | Assets/Scripts/Framework/UI/UISystem.cs:301 | List.Remove takes one occurrence out when the value is present and changes nothing otherwise |
| UISorting.RemoveFirstAtIndexOf | Assets/Scripts/Framework/UI/UISystem.cs:301 | the occurrence removed is the first one |
| UISorting.RemoveFirstKeepsIncreasing | Assets/Scripts/Framework/UI/UISystem.cs:299-302 | removing an order from a strictly increasing layer list keeps it strictly increasing |
| UISorting.BaseOrder | Assets/Scripts/Framework/UI/UISystem.cs:306-312 | the first order of a layer, (65535 / L) * index - 32768, lies within the 16-bit range |
| UISorting.BaseOrderMonotone | Assets/Scripts/Framework/UI/UISystem.cs:309-310 | a layer configured later never starts below an earlier one; the starts differ by the slice size times the distance between the layers |
| UISorting.TopFirst | Assets/Scripts/Framework/UI/UISystem.cs:261 | enumerating a Stack yields its elements from the top down |
| UISorting.TopFirstPush | Assets/Scripts/Framework/UI/UISystem.cs:261 | a pushed element comes first in the enumeration, ahead of the rest in their old order |
| UISorting.TopFirstTwice | Assets/Scripts/Framework/UI/UISystem.cs:261 | reversing the top-first enumeration gives the stack back, bottom first |
| UISorting.LastSeenAt | Assets/Scripts/Framework/UI/UISystem.cs:259-265 | the enumeration loop leaves the last position at which the id was seen, or 0 |
| UISorting.PopCount | Assets/Scripts/Framework/UI/UISystem.cs:267 | the corrected count: the number of entries above the id, so the id is then on top |
| UISorting.PopCountAsWritten | Assets/Scripts/Framework/UI/UISystem.cs:257-267 | the count as written is within 0 .. Count - 1 for a non-empty stack and is Count - 1 when the id is absent; PopCountAsWrittenCountsBelow proves it counts the panels below the id |
| UISorting.PopCountAsWrittenCountsBelow | Assets/Scripts/Framework/UI/UISystem.cs:257-267 | on a stack without duplicates, the count as written equals the number of entries below the id, not above it |
| UISorting.PopCountAsWrittenExample | Assets/Scripts/Framework/UI/UISystem.cs:257-267 | for the stack A, B, C and the id A, the count as written is 0 and the intended count is 2 |
| UISorting.UISystem.constructor | Assets/Scripts/Framework/UI/UISystem.cs:18-25 | no focus, nothing loaded, empty stack and active list, and after InitSortingLayers an empty order list for every configured layer |
| UISorting.UISystem.InitSortingLayers | Assets/Scripts/Framework/UI/UISystem.cs:283-290 | every configured layer gets an empty order list; entries for other names are kept |
| UISorting.UISystem.IsPanelActive | Assets/Scripts/Framework/UI/UISystem.cs:224-227 | List.Contains on the active list; OrdersWithout, RemoveSortingOrder and HidePanel take a panel's order out only while this holds |
| UISorting.UISystem.OrdersWithout | Assets/Scripts/Framework/UI/UISystem.cs:294-302 | while the panel is active, its layer list with the first occurrence of the panel's current order removed; otherwise the list unchanged; still strictly increasing |
| UISorting.UISystem.GetNewSortingOrder | Assets/Scripts/Framework/UI/UISystem.cs:292-323 | the layer's base order when its remaining list is empty, else the last element plus 1; above every remaining order of the layer; appended to that layer's list only; the lists stay strictly increasing |
| UISorting.UISystem.RemoveSortingOrder | Assets/Scripts/Framework/UI/UISystem.cs:325-336 | an active panel's order leaves its layer's list (first occurrence); for an inactive panel nothing changes |
| UISorting.UISystem.SetPanelFocus | Assets/Scripts/Framework/UI/UISystem.cs:342-354 | null clears the focus; a loaded id takes it; any other id leaves it unchanged |
| UISorting.UISystem.HidePanel | Assets/Scripts/Framework/UI/UISystem.cs:197-218 | for a loaded panel, its order leaves its layer's list while it is still active, and then its first occurrence leaves the active list; otherwise nothing changes |
| UISorting.UISystem.HidePeekPanel | Assets/Scripts/Framework/UI/UISystem.cs:169-195 | pops and hides the top panel unless it is the only one: a loaded popped panel's order leaves its layer list and its id leaves the active list, otherwise both stay as they were; then a loaded top panel takes the focus, an unloaded one leaves the focus as it was, and an empty stack clears it |
| UISorting.UISystem.PopPanelsAbove | Assets/Scripts/Framework/UI/UISystem.cs:257-273 | with the corrected count, every panel above the id is popped and the id is on top |
| UISorting.UISystem.PushToStack | Assets/Scripts/Framework/UI/UISystem.cs:233-254 | an id already in the stack is not pushed again, and the panels above it are popped; any other id is pushed; either way the id is then on top, the stack grows by at most one and holds no duplicates |

## Left out

- Floating point is not modelled. Coordinates, sizes and radii are exact reals, and `Mathf.FloorToInt` is the exact floor.
- A game object is its id and a snapshot of its `transform.position` taken at the call. The tree does not see objects that move after insertion.
- Logging (`Log.Info`, `Log.Warn`, `Log.Error`, `Debug.Log`) is console output and is not modelled. The battle log is a list of `Attack(attacker, target)` records rather than formatted text.
- `EventManager.RaiseEvent` is a foreign global event bus. It is modelled as an append to the ghost event log `Events`.
- GridStore.Grid.GetGridIndex: requires a non-zero cell size. With a zero size the source divides by zero in floating point, and the model has no such value.
- GridStore.Grid.constructor: requires non-negative dimensions, because C# throws on a negative array size. `createData` receives the cell indices but not the grid under construction. `default(TGridData)` is the constructor argument `defaultData`.
- Entities.Entity.TryAddComponent: the key is the component's own type (`typeof(T)` at the call sites). A call made with a wider static type such as `IComponent` is not modelled.
- Components are values. `BattleEntity`'s typed accessors return the same objects its dictionary holds, so they are not modelled separately, and neither is in-place mutation of a component's fields. An unset `Name` (null) is the empty string.
- EntityManagement.EntityManager.TryAddEntity: ids are unbounded naturals. The 32-bit `uint` counter would wrap to 0 after 2^32 - 1 registrations, and that is not modelled.
- EntityManagement.EntityManager.Update: the dictionary's enumeration order is the parameter `order`, which lists every key once. C# does not specify that order.
- BattleTargeting.IsInRange: the int sum is compared with the float squared radius in exact arithmetic. Float rounding of large sums is not modelled.
- Several UI operations are not modelled. `ShowPanel`, `ImplementShowPanel`, `LoadPanel` and `GetPanelPrefab` (prefab instantiation), `Init`'s canvas creation and the UI event bus (`RegisterEventHandler`, `UnregisterEventHandler`, `InvokeEvent`) depend on Unity objects and asynchronous show animations. The model therefore never fills `panelsLoaded`; every UI method is stated for any state that satisfies `Valid`.
- Animations and GameObject activation are not modelled: `StartShow`, `StartHide`, `PauseFocus`, `ResumeFocus`, `SetActive`, and the `IsHideOtherInStackPanels` and `IsNeedHideWhenNotFocus` loops. `HidePanel` is modelled as its effect once the hide animation has finished. `HidePeekPanel` is modelled as called without animation, as `PopPanelsAbove` calls it.
- UISorting.UISystem.PushToStack: the hide animation of the previous top panel is not modelled. The contract states the stack but not the sorting-order, active-list and focus changes of each popped panel.
- UISorting.UISystem.PopPanelsAbove: the contract states the resulting stack and the invariant, but not the sorting-order, active-list and focus changes made by each `HidePeekPanel`.
- `UISystem.Valid` assumes that every loaded panel's sorting layer is a configured layer. Otherwise `_sortingOrders[panel.SortingLayer]` throws.
- UISorting.UISystem.GetNewSortingOrder: orders are unbounded ints. Unity's clamping of `Canvas.sortingOrder` to 16 bits is not modelled.
- The quadtree API used by the quadtree test scene (`Remove`, `GetCollidersInRange`, `Root`, a three-argument constructor) belongs to a different class. That class is not part of this model.
- `GetWorldPosition` follows the code. The index vector's y is 0, but the offset is added afterwards, so the world y is the offset's y rather than 0.

## Findings

| source | as written | input that shows it | evidently intended | confidence | as-written member | corrected member |
|---|---|---|---|---|---|---|
| Assets/Scripts/Game/Battle/Systems/BattleSystem.cs:68-74 | `deltaX * deltaX + deltaY * deltaY` is computed in unchecked 32-bit int arithmetic and wraps for distances above 46340 | transforms (0, 0) and (46341, 0) with radius 1: the squared distance wraps to -2147479015, so the far entity counts as in range | compare the true squared distance with the squared radius | medium, not executed | BattleTargeting.IsInRangeAsWritten, shown by BattleTargeting.IsInRangeAsWrittenOverflows | BattleTargeting.IsInRange, with BattleTargeting.IsInRangeSymmetric and BattleTargeting.IsInRangeMonotone, used by BattleTargeting.FindTargetEntity |
| Assets/Scripts/Framework/UI/UISystem.cs:257-273 | `index` comes from enumerating the `Stack`, which yields the top first, but `popCount = Count - 1 - index` treats it as counted from the bottom | stack A, B, C with C on top and PushToStack("A"): the count is 0, so nothing is popped and C stays above A | pop every panel above the id (here 2) | high, not executed | UISorting.PopCountAsWritten, shown by UISorting.PopCountAsWrittenExample and UISorting.PopCountAsWrittenCountsBelow | UISorting.PopCount, used by UISorting.UISystem.PopPanelsAbove |
