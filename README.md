# Voxel editor core, modelled in Dafny

This project models the bookkeeping core of a small C++ voxel/scene editor and proves
properties of it. The core has five parts:

- **Entity-component core.** Entities are integer identifiers handed out by a registry. Each
  component type lives in a `ComponentStorage`, a vector sorted by entity and searched with
  `std::lower_bound`. A `View` iterates the entities held by several storages at once, driven by
  the smallest one.
- **Scene-graph passes over those components.**
  - Parent/child links (`HierarchyComponent`).
  - Dirty flags with downward propagation (`TransformComponent::MarkDirty`).
  - Reparenting and both generations of the world-matrix pass (`TransformSystem`).
  - Effective visibility (`VisibilitySystem`).
  - Render batches with swap-removal (`RenderSystem`).
- **Input.**
  - The action-binding manager: chords, the conflict rule, and the press/held/release
    state machine.
  - The action name table.
  - Two older key tables.
- **Editor settings.** The INI-style text format with its parser, its sorted writer, typed
  getters and dirty tracking.
- **Instrumentation.** An observer list (`Subject`/`ObserverHandle`) and the profiler's ring
  buffers.

How the source maps to Dafny:

- Objects that the source updates in place are classes: `Storage`, `Registry`, `View`,
  `Iterator`, `World`, `Renderer`, `InputManager`, `KeyBindings`, `Settings`, `Subject`,
  `ObserverHandle`, and the profiler's classes.
  - Their methods carry `modifies` clauses.
  - Each is proved against specification functions over the state it changes.
- Pure computations are functions and lemmas.
- Matrices, vectors and quaternions are free symbolic terms: the datatype constructors `Mul`,
  `Compose`, `Inverse` and so on.
  - No algebraic law is assumed of them, so every equality proved about a matrix is
    structural.
- Frame times are reals.
- Callbacks are opaque identifiers. A notification is an entry appended to a log, so "which
  callbacks ran, in which order" is part of each contract.

Module layout (one file per module):

| file | models |
|---|---|
| `wrappers.dfy` | `Option` and `Result` |
| `entities.dfy` | entity identifiers, ordered iteration of `std::set<Entity>` |
| `component_storage.dfy` | `ComponentStorage<T>` |
| `entity_registry.dfy` | `EntityRegistry` |
| `view.dfy` | `View<Ts...>` and its iterator |
| `components.dfy` | `HierarchyComponent`'s value operations |
| `geometry.dfy` | symbolic matrices and poses |
| `scene_graph.dfy` | reachability and acyclicity over parent/child links |
| `scene.dfy` | the component world, `TransformComponent`, `HierarchyComponent` constructors |
| `propagation.dfy` | generic lemmas for top-down passes |
| `transform_system.dfy` | `TransformSystem.cpp` (queue-driven pass, `Reparent`, `IsDescendant`) |
| `transform_system_view.dfy` | `TransformSystem.h` (view-driven pass) |
| `visibility_system.dfy` | `VisibilitySystem` |
| `render_system.dfy` | `RenderSystem` batches |
| `event.dfy` | `Subject`, `ObserverHandle` |
| `input_actions.dfy` | `INPUT_ACTIONS` name table |
| `input_manager.dfy` | the action-binding `InputManager` |
| `key_table.dfy` | the two older key tables |
| `settings_text.dfy` | text primitives used by the settings code |
| `editor_settings.dfy` | `EditorSettings` |
| `profiler.dfy` | `GraphFrameHistory`, `FrameTimer`, `Profiler` |

The storage's lookup is modelled as written: `lower_bound` with no equality check. That is, a
lookup for `e` lands on the first stored entity that is at or above `e`. Every contract
of `Has`, `Get`, `Add` and `Remove`, and of the registry and view operations built on them,
states that behaviour (`Found`, `LowerBound`). See Findings for the exact lookup
the code evidently intends. The scene-graph layer works on a world of component *values*
keyed by entity and uses the exact lookup.

## Model

| member | source | states |
|---|---|---|
| `ComponentStorage.LowerBound` | src/Voxel/ECS/ComponentStorage.h:45-48 | the position `lower_bound` returns: every earlier component has a smaller entity, and the one there (if any) is at or above `e` |
| `ComponentStorage.LowerBoundUnique` | src/Voxel/ECS/ComponentStorage.h:45-48 | those two properties determine the position uniquely |
| `ComponentStorage.FoundIffAtMostLast` | src/Voxel/ECS/ComponentStorage.h:34 | on a strictly ascending vector the lookup succeeds exactly when `e` is at most the largest stored entity, whether or not `e` is stored |
| `ComponentStorage.AscendingTail` | src/Voxel/ECS/ComponentStorage.h:43 | a suffix of the strictly ascending component vector is strictly ascending |
| `ComponentStorage.Added` | src/Voxel/ECS/ComponentStorage.h:7-14 | definition: the component vector after `Add`, unchanged when the lookup succeeds and the component inserted at the lookup position otherwise; `AddedProperties` states its properties |
| `ComponentStorage.AddedProperties` | src/Voxel/ECS/ComponentStorage.h:7-14 | `Add` with a component stamped `e` keeps the vector strictly ascending; the stored entities grow by `e` exactly when the lookup fails, and the vector is unchanged when it succeeds |
| `ComponentStorage.AddedInside` | src/Voxel/ECS/ComponentStorage.h:8-10 | when the lookup lands inside the vector, `Add` returns early and changes nothing |
| `ComponentStorage.AddedAtEnd` | src/Voxel/ECS/ComponentStorage.h:12-13 | when it lands at the end, the component is inserted last, the vector stays ascending and gains exactly `e` |
| `ComponentStorage.AppendAscending` | src/Voxel/ECS/ComponentStorage.h:12 | inserting at the end a component above every stored one keeps the vector strictly ascending |
| `ComponentStorage.IdsAppend` | src/Voxel/ECS/ComponentStorage.h:12 | the stored entities after inserting at the end are the old ones plus the new component's |
| `ComponentStorage.DeleteAt` | src/Voxel/ECS/ComponentStorage.h:20 | `erase` of one position keeps the vector strictly ascending and removes exactly that position's entity |
| `ComponentStorage.DeleteAscending` | src/Voxel/ECS/ComponentStorage.h:20 | after `erase` the vector is still strictly ascending |
| `ComponentStorage.DeleteIds` | src/Voxel/ECS/ComponentStorage.h:20 | after `erase` the stored entities are the old ones minus the erased one |
| `ComponentStorage.Erased` | src/Voxel/ECS/ComponentStorage.h:16-22 | definition: the component vector after `Remove`, the component the lookup lands on erased; `ErasedProperties` states its properties |
| `ComponentStorage.ErasedProperties` | src/Voxel/ECS/ComponentStorage.h:16-22 | `Remove` keeps the vector strictly ascending; when the lookup succeeds it removes the entity it lands on (which is `e` when `e` is stored), otherwise it changes nothing |
| `ComponentStorage.FoundIsInRange` | src/Voxel/ECS/ComponentStorage.h:18 | "some stored entity is at or above `e`" holds exactly when `lower_bound` does not return `end()` |
| `ComponentStorage.ErasedInside` | src/Voxel/ECS/ComponentStorage.h:17-21 | when the lookup lands inside the vector, `Remove` erases that position, keeping the order and removing that entity |
| `ComponentStorage.FindExact` | src/Voxel/ECS/ComponentStorage.h:45-48 | the corrected lookup: a returned position holds exactly `e` |
| `ComponentStorage.FindExactIsMembership` | src/Voxel/ECS/ComponentStorage.h:45-48 | the corrected lookup succeeds exactly for stored entities and returns the only position holding `e` |
| `ComponentStorage.LookupAcceptsAbsentEntity` | src/Voxel/ECS/ComponentStorage.h:45-48 | the as-written lookup for entity 1 in a storage holding only entity 2 lands on entity 2's component, while the corrected lookup fails |
| `ComponentStorage.Storage.constructor` | src/Voxel/ECS/ComponentStorage.h:43 | a new storage is empty (and so strictly ascending) |
| `ComponentStorage.Storage.Find` | src/Voxel/ECS/ComponentStorage.h:45-48 | the binary search returns exactly `LowerBound(components, e)` |
| `ComponentStorage.Storage.Has` | src/Voxel/ECS/ComponentStorage.h:34 | true exactly when some stored entity is at or above `e` |
| `ComponentStorage.Storage.Get` | src/Voxel/ECS/ComponentStorage.h:24-27 | null exactly when `Has` is false; otherwise the first component whose entity is at or above `e` |
| `ComponentStorage.Storage.Add` | src/Voxel/ECS/ComponentStorage.h:7-14 | keeps the vector strictly ascending; the new vector is `Added(old, e, comp)`; returns the component the lookup lands on when it succeeds, the new one otherwise |
| `ComponentStorage.Storage.Remove` | src/Voxel/ECS/ComponentStorage.h:16-22 | keeps the storage ascending; returns whether the lookup succeeded and erases what it landed on |
| `ComponentStorage.Storage.Clear` | src/Voxel/ECS/EntityRegistry.h:51 | the clearer's `storage.Clear()` leaves the storage empty |
| `Entities.HasLeast` | src/Voxel/ECS/Components/HierarchyComponent.h:8 | a non-empty `std::set<Entity>` has a least element |
| `Entities.PopLeast` | src/Voxel/ECS/Components/HierarchyComponent.h:8 | one step of iterating a `std::set<Entity>`: the least element and the rest |
| `Entities.InOrder` | src/Voxel/ECS/Components/TransformComponent.h:87 | the order a range-for visits a `std::set<Entity>`: strictly ascending, and every element exactly once |
| `EntityRegistry.RegisteredDistinct` | src/Voxel/ECS/EntityRegistry.h:45-56 | registering on first use only keeps the remover and clearer lists free of duplicates and adds exactly `t` |
| `EntityRegistry.Registry.constructor` | src/Voxel/ECS/EntityRegistry.h:43-59 | the counter starts at `InvalidEntity`, with no storages, removers or clearers |
| `EntityRegistry.Registry.CreateEntity` | src/Voxel/ECS/EntityRegistry.h:12 | returns the previous counter plus one, which becomes the counter; never `InvalidEntity` |
| `EntityRegistry.Registry.GetStorage` | src/Voxel/ECS/EntityRegistry.h:45-56 | returns the storage of `t`, creating an empty one on first use only; the remover and clearer lists gain `t` exactly then; existing storages, contents and the counter are unchanged |
| `EntityRegistry.Registry.Register` | src/Voxel/ECS/EntityRegistry.h:49-54 | the first-use branch: one new empty storage, one remover and one clearer appended |
| `EntityRegistry.Registry.AddComponent` | src/Voxel/ECS/EntityRegistry.h:19-23 | stamps the component with `e` and adds it; returns the existing component (discarding the new one) when the lookup succeeds; other types untouched |
| `EntityRegistry.Registry.GetComponent` | src/Voxel/ECS/EntityRegistry.h:25 | the storage's `Get` on type `t`; nothing else changes except first-use registration |
| `EntityRegistry.Registry.HasComponent` | src/Voxel/ECS/EntityRegistry.h:27 | the storage's `Has` on type `t`; nothing else changes except first-use registration |
| `EntityRegistry.Registry.RemoveComponent` | src/Voxel/ECS/EntityRegistry.h:29 | the storage's `Remove` on type `t`; other types untouched |
| `EntityRegistry.Registry.RunRemover` | src/Voxel/ECS/EntityRegistry.h:50 | a remover closure removes `e` from its own type's storage only |
| `EntityRegistry.Registry.DestroyEntity` | src/Voxel/ECS/EntityRegistry.h:14-17 | running every remover leaves each registered type's storage as `Erased(old, e)`: the lookup's hit for `e` is erased, and nothing else changes |
| `EntityRegistry.Registry.RunClearer` | src/Voxel/ECS/EntityRegistry.h:51 | a clearer closure empties its own type's storage only |
| `EntityRegistry.Registry.Cleanup` | src/Voxel/ECS/EntityRegistry.h:35-39 | every storage is empty, registrations are kept, and the counter is `InvalidEntity`, so the next `CreateEntity` returns 1 again |
| `EntityRegistry.Registry.StoragesOf` | src/Voxel/ECS/EntityRegistry.h:32 | the pack expansion `GetStorage<Ts>()...`: position `k` holds the storage of `ts[k]`; contents and existing storages unchanged |
| `EntityRegistry.Registry.MakeView` | src/Voxel/ECS/EntityRegistry.h:31-33 | the view binds exactly those storages, and its primary is the first storage of the smallest size |
| `Views.MinSize` | src/Voxel/ECS/View.h:56-58 | `std::min` over the sizes: at most every size and equal to one of them |
| `Views.Lookups` | src/Voxel/ECS/View.h:29-31 | each storage's `Get(e)` in storage order, each at or above `e` |
| `Views.NextMatch` | src/Voxel/ECS/View.h:35-42 | where `AdvanceToValid` stops: a yielded position at or after the start, or the primary size |
| `Views.NextMatchSkipsNonMatches` | src/Voxel/ECS/View.h:36-40 | every position `AdvanceToValid` skips is one where some storage lacks the entity |
| `Views.Yielded` | src/Voxel/ECS/View.h:35-42 | definition: the entities a range-for over the view yields from a position on; `YieldedMembers`, `YieldedAscending` and `View.Entities` state its properties |
| `Views.YieldedStep` | src/Voxel/ECS/View.h:16-20 | at a yielded position the iteration yields that entity, then the rest |
| `Views.YieldedVisit` | src/Voxel/ECS/View.h:16-31 | one dereference-and-step turn appends the current entity and lands on the next yielded position or the end |
| `Views.YieldedFrom` | src/Voxel/ECS/View.h:35-42 | the positions `AdvanceToValid` skips contribute nothing to the iteration |
| `Views.YieldedMembers` | src/Voxel/ECS/View.h:35-75 | an entity is yielded exactly when it sits below the primary size in the primary storage and every storage's lookup succeeds for it |
| `Views.YieldedAscending` | src/Voxel/ECS/View.h:35-42 | over a strictly ascending primary storage the iteration yields strictly ascending primary entities |
| `Views.Contents` | src/Voxel/ECS/View.h:53 | the component vectors of the bound storages, in order |
| `Views.FindSmallestStorage` | src/Voxel/ECS/View.h:77-89 | the first storage with the smallest size: no storage is smaller and every earlier one is strictly larger |
| `Views.View.constructor` | src/Voxel/ECS/View.h:8-10 | binds the storages and picks the primary as `FindSmallestStorage` does |
| `Views.View.PrimarySize` | src/Voxel/ECS/View.h:56-58 | no larger than any storage's size, so every index below it is in bounds everywhere |
| `Views.View.HasAll` | src/Voxel/ECS/View.h:73-75 | true exactly when every bound storage's `Has(e)` is true |
| `Views.View.GetAll` | src/Voxel/ECS/View.h:29-31 | `Get(e)` of every storage in order, each dereferenced |
| `Views.View.MatchAt` | src/Voxel/ECS/View.h:37-39 | one test of the scan: whether position `j` is yielded, and so where the scan from `j` stops |
| `Views.View.FirstMatchFrom` | src/Voxel/ECS/View.h:35-42 | the scan loop returns `NextMatch` of its start |
| `Views.View.Begin` | src/Voxel/ECS/View.h:48 | `begin()` is on the first yielded position, or at the end |
| `Views.View.End` | src/Voxel/ECS/View.h:49 | `end()` is at the primary size |
| `Views.View.Visit` | src/Voxel/ECS/View.h:16-31 | one turn of a range-for: the row's entity is appended and the iterator moves strictly forward to the next yielded position or the end |
| `Views.View.RowEntity` | src/Voxel/ECS/View.h:24-31 | on a yielded position `*it` yields that position's primary entity |
| `Views.View.Entities` | src/Voxel/ECS/View.h:14-49 | a range-for over the view yields exactly the yielded entities, in strictly ascending order |
| `Views.View.Collect` | src/Voxel/ECS/View.h:16-22 | the range-for loop from `begin()` to `end()` collects `Yielded` from the start |
| `Views.Iterator.constructor` | src/Voxel/ECS/View.h:14 | a new iterator is advanced to the first yielded position at or after its index |
| `Views.Iterator.AdvanceToValid` | src/Voxel/ECS/View.h:35-42 | the index becomes `NextMatch` of the old index |
| `Views.Iterator.Next` | src/Voxel/ECS/View.h:16-20 | `operator++` steps once and advances: `NextMatch` of the old index plus one |
| `Views.Iterator.Deref` | src/Voxel/ECS/View.h:24-32 | throws `out_of_range` exactly at or past the primary size; otherwise the primary entity and each storage's component for it |
| `Components.HasParent` | src/Voxel/ECS/Components/HierarchyComponent.h:20 | definition: the parent field is a valid entity; `RootHierarchyHasNoParent` states it is false for a default hierarchy |
| `Components.WithChild` | src/Voxel/ECS/Components/HierarchyComponent.h:18 | definition: `AddChild`, the hierarchy with the child inserted into its set; `WithChildIsInsert` states its properties |
| `Components.WithoutChild` | src/Voxel/ECS/Components/HierarchyComponent.h:19 | definition: `RemoveChild`, the hierarchy with the child erased from its set; `WithoutChildIsErase` states its properties |
| `Components.RootHierarchyHasNoParent` | src/Voxel/ECS/Components/HierarchyComponent.h:10 | a default hierarchy has the invalid entity as parent, so `HasParent` is false, and no children |
| `Components.WithChildIsInsert` | src/Voxel/ECS/Components/HierarchyComponent.h:18 | `AddChild` leaves the parent field alone and makes the children exactly the old ones plus `c`; adding twice is adding once |
| `Components.WithoutChildIsErase` | src/Voxel/ECS/Components/HierarchyComponent.h:19 | `RemoveChild` leaves the parent field alone and makes the children exactly the old ones minus `c`; removing an absent child changes nothing |
| `SceneGraph.ReachesUnfold` | src/Voxel/ECS/Components/TransformComponent.h:87-90 | what a recursion over children visits from `a`: `a` itself and exactly the strict descendants of `a` |
| `SceneGraph.ReachesTransitive` | src/Voxel/ECS/Components/TransformComponent.h:87-90 | a node below a node below `a` is below `a` |
| `SceneGraph.Converge` | src/Voxel/ECS/Components/HierarchyComponent.h:6-8 | when no entity is listed as a child twice, two nodes above a common node are above one another |
| `SceneGraph.SiblingsDisjoint` | src/Voxel/ECS/Components/HierarchyComponent.h:6-8 | in such a forest the subtrees of two different children of one node share no node, so one child's recursive pass never reaches the other's subtree |
| `SceneGraph.RootsDisjoint` | src/Voxel/ECS/Components/HierarchyComponent.h:6-8 | in a consistent forest the subtrees of two different parentless nodes share no node |
| `Scene.Dirtied` | src/Voxel/ECS/Components/TransformComponent.h:79-91 | marking from a set of roots keeps the same transformed entities |
| `Scene.DirtiedTwice` | src/Voxel/ECS/Components/TransformComponent.h:79-91 | marking from `a` and then from `b` is marking from both at once |
| `Scene.DirtiedFromChildren` | src/Voxel/ECS/Components/TransformComponent.h:79-91 | setting the entity's own flag and then marking from its children is marking from the entity: the recursion unfolds to the whole subtree |
| `Scene.MarkDirtyMeaning` | src/Voxel/ECS/Components/TransformComponent.h:79-91 | after `MarkDirty(e)` a transform is dirty exactly when it was dirty, is `e`, or lies below `e`; no other field changes; without a hierarchy only `e` is marked |
| `Scene.MarkDirtyKeepsDownClosed` | src/Voxel/ECS/Components/TransformComponent.h:79-91 | if every child of a dirty transform is dirty before marking, the same holds after marking |
| `Scene.AttachedAsWritten` | src/Voxel/ECS/Components/HierarchyComponent.h:11-15 | definition: the parent constructor as written, then `AddComponent`: the unstamped field's value joins the parent's children and the component is stored when `e` has none; `AttachedAsWrittenUnlinks` states what goes wrong |
| `Scene.Attached` | src/Voxel/ECS/Components/HierarchyComponent.h:11-15 | definition: the same with `e` itself inserted; `AttachedKeepsConsistent` states that it keeps the links consistent |
| `Scene.AttachedKeepsConsistent` | src/Voxel/ECS/Components/HierarchyComponent.h:11-15 | attaching a fresh entity with its own id under an existing parent keeps parent fields and child sets in agreement, and links the two both ways |
| `Scene.AttachedAsWrittenBreaksLink` | src/Voxel/ECS/Components/HierarchyComponent.h:11-15 | with the constructor as written, the `entity` field is uninitialised when it is read; taking 0 as an example value, attaching entity 2 under 1 gives 2 the parent 1 but leaves 2 out of 1's children: the links disagree |
| `Scene.AttachedAsWrittenUnlinks` | src/Voxel/ECS/Components/HierarchyComponent.h:11-15 | for every value of the uninitialised field other than `e`, attaching a fresh entity under an existing parent names the parent while the parent does not list the entity: the links become inconsistent |
| `Scene.Posed` | src/Voxel/ECS/Components/TransformComponent.h:27-31 | definition: the posing constructor's transform, the rotation from the Euler angles, the local matrix from the pose, dirty; `World.AddTransform` is proved to store it |
| `Scene.PosedAsWrittenMarksStranger` | src/Voxel/ECS/Components/TransformComponent.h:27-31 | with the constructor as written, the `entity` field is uninitialised when `MarkDirty` reads it; taking 5 as an example value, a transform made for entity 1 marks the child 6 of entity 5, which is unrelated, while marking from entity 1 changes nothing |
| `Scene.World.constructor` | src/Voxel/ECS/EntityRegistry.h:43-59 | a world with no components, empty pass queues and no recorded events, as a fresh registry and fresh systems hold |
| `Scene.World.MarkDirty` | src/Voxel/ECS/Components/TransformComponent.h:79-91 | the transforms become `Dirtied` from `{e}` (see `MarkDirtyMeaning`) |
| `Scene.World.MarkBelow` | src/Voxel/ECS/Components/TransformComponent.h:87-90 | the child loop: the transforms become `Dirtied` from the children of `a` |
| `Scene.World.MarkClean` | src/Voxel/ECS/Components/TransformComponent.h:92 | only `e`'s flag is cleared |
| `Scene.World.UpdateTransform` | src/Voxel/ECS/Components/TransformComponent.h:70-77 | the local matrix is recomputed from the pose and then `e`'s subtree is marked; `e` ends dirty with a local matrix matching its pose |
| `Scene.World.SetPosition` | src/Voxel/ECS/Components/TransformComponent.h:33-36 | the position is replaced, the local matrix recomputed and the subtree marked dirty; nothing else changes |
| `Scene.World.AddPosition` | src/Voxel/ECS/Components/TransformComponent.h:38-41 | the delta is added to the position, then as `SetPosition` |
| `Scene.World.SetRotation` | src/Voxel/ECS/Components/TransformComponent.h:43-46 | the rotation is replaced, then as `SetPosition` |
| `Scene.World.AddRotation` | src/Voxel/ECS/Components/TransformComponent.h:48-51 | the rotation becomes delta times the old rotation, then as `SetPosition` |
| `Scene.World.SetRotationEulerDegrees` | src/Voxel/ECS/Components/TransformComponent.h:53-57 | the rotation becomes the quaternion of the Euler angles in degrees, then as `SetPosition` |
| `Scene.World.AddRotationEulerDegrees` | src/Voxel/ECS/Components/TransformComponent.h:59-63 | the rotation becomes that quaternion times the old rotation, then as `SetPosition` |
| `Scene.World.SetScale` | src/Voxel/ECS/Components/TransformComponent.h:65-68 | the scale is replaced, then as `SetPosition` |
| `Scene.World.AddHierarchy` | src/Voxel/ECS/Components/HierarchyComponent.h:10 | a default (rootless, childless) hierarchy is stored when `e` has none; an existing one is returned unchanged |
| `Scene.World.AttachHierarchyAsWritten` | src/Voxel/ECS/Components/HierarchyComponent.h:11-15 | the hierarchy links become `AttachedAsWritten`: the unstamped id, not `e`, is inserted into the parent's children |
| `Scene.World.AttachHierarchy` | src/Voxel/ECS/Components/HierarchyComponent.h:11-15 | the hierarchy links become `Attached`: `e` is inserted into the parent's children and gets the parent as its parent |
| `Scene.World.AddTransformAsWritten` | src/Voxel/ECS/Components/TransformComponent.h:27-31 | the children of the unstamped id are marked dirty, and the posed transform is stored only when `e` has none |
| `Scene.World.AddTransform` | src/Voxel/ECS/Components/TransformComponent.h:27-31 | the children of `e` are marked dirty, and a fresh transform for `e` is stored dirty with a local matrix matching its pose |
| `Scene.World.MarkEntityDirty` | src/Voxel/ECS/Systems/VisibilitySystem.h:15 | `e` is appended to the visibility queue |
| `Propagation.ChildStep` | src/Voxel/ECS/Systems/TransformSystem.cpp:102-104 | one turn of the child loop: once a child's recursive call agrees below it and touched only its own subtree, the loop invariant holds with that child done |
| `Propagation.ChildrenComplete` | src/Voxel/ECS/Systems/TransformSystem.cpp:94-105 | once the node is written and every child is done, the whole call from the node has `Propagated`: only its subtree changed and every link in it agrees |
| `Propagation.QueueStep` | src/Voxel/ECS/Systems/TransformSystem.cpp:10-24 | one turn of a queue-driven pass: a queued node seeded from its parent's value (or the root value) joins the done set, and the nodes already done stay agreed |
| `TransformSystem.Relinked` | src/Voxel/ECS/Systems/TransformSystem.cpp:41-53 | definition: the links after `Reparent` moves the child, out of the old parent's children, the parent field set, into the new parent's children when it is valid and has a hierarchy; `RelinkedAt`, `RelinkedShape` and `RelinkedConsistent` state its properties |
| `TransformSystem.Reposed` | src/Voxel/ECS/Systems/TransformSystem.cpp:55-68 | definition: the child's pose before `UpdateTransform`, relative to the new parent's world, the old world, or unchanged, by the source's cases; `Reparent` is proved to write it |
| `TransformSystem.RelinkedAt` | src/Voxel/ECS/Systems/TransformSystem.cpp:41-53 | after relinking, at any entity only the child's parent field changes, only the child leaves or joins a child set, and the child is listed by the new parent alone |
| `TransformSystem.RelinkedShape` | src/Voxel/ECS/Systems/TransformSystem.cpp:41-53 | the same, for every entity at once, and no hierarchy is added or dropped |
| `TransformSystem.RelinkedConsistent` | src/Voxel/ECS/Systems/TransformSystem.cpp:41-53 | relinking in a consistent hierarchy keeps parent fields and child sets in agreement and gives the child its new parent |
| `TransformSystem.IsDescendant` | src/Voxel/ECS/Systems/TransformSystem.cpp:79-92 | true exactly when `e` lies strictly below `p` |
| `TransformSystem.UpdateRecursive` | src/Voxel/ECS/Systems/TransformSystem.cpp:94-105 | only world matrices change, only within `e`'s subtree; `e`'s world is `parentWorld * local` and, in a forest, every child's world is its parent's world times its local matrix throughout the subtree |
| `TransformSystem.UpdateChildren` | src/Voxel/ECS/Systems/TransformSystem.cpp:101-104 | the child loop leaves every child done: each agrees with `e`, agrees below itself, and only their subtrees changed |
| `TransformSystem.UpdateChild` | src/Voxel/ECS/Systems/TransformSystem.cpp:103 | one recursive call in the child loop adds that child to the done set |
| `TransformSystem.QueuedStep` | src/Voxel/ECS/Systems/TransformSystem.cpp:17-23 | the loop invariant of `Run` survives the update of one queued entity entered with its parent's world (or the identity) |
| `TransformSystem.UpdateQueued` | src/Voxel/ECS/Systems/TransformSystem.cpp:12-23 | one turn of `Run`'s loop on an entity with a hierarchy and a transform keeps the loop invariant with the entity added |
| `TransformSystem.RunQueue` | src/Voxel/ECS/Systems/TransformSystem.cpp:8-26 | the queue is emptied; only world matrices change, only below the queued entities that have a hierarchy and a transform; in a consistent forest each of those agrees with its parent (or the identity) and every link below it agrees |
| `TransformSystem.Relink` | src/Voxel/ECS/Systems/TransformSystem.cpp:41-53 | the hierarchy links become `Relinked` |
| `TransformSystem.Repose` | src/Voxel/ECS/Systems/TransformSystem.cpp:55-68 | the child's pose becomes `Reposed`: relative to the new parent's world when that parent has a transform, the old world when the new parent is invalid or has no hierarchy |
| `TransformSystem.Reparent` | src/Voxel/ECS/Systems/TransformSystem.cpp:28-77 | no effect when the parent is unchanged; otherwise the links are `Relinked`, the child reposed, refreshed and its subtree marked dirty, one parent-change event recorded, and the child queued for visibility exactly when it has a meta component |
| `TransformSystemView.Flattened` | src/Voxel/ECS/Systems/TransformSystem.h:26-34 | the second pass keeps the same transformed entities |
| `TransformSystemView.RefreshesCompose` | src/Voxel/ECS/Systems/TransformSystem.h:18-23 | two dirty-checking passes from `a` and then `b` have the effect of one pass from both |
| `TransformSystemView.RefreshesNode` | src/Voxel/ECS/Systems/TransformSystem.h:40-55 | writing a dirty node's world and cleaning it, then refreshing from its children, refreshes its whole subtree |
| `TransformSystemView.SettledEverywhere` | src/Voxel/ECS/Systems/TransformSystem.h:40-55 | when dirtiness is closed downwards and clean links agree, the recursion starts from a settled state at every node |
| `TransformSystemView.UpdateRecursiveDirty` | src/Voxel/ECS/Systems/TransformSystem.h:40-55 | only dirty transforms below `e` are rewritten and all of them end clean; a dirty `e` gets `parentWorld * local`; from a settled state every link below `e` agrees |
| `TransformSystemView.UpdateChildrenDirty` | src/Voxel/ECS/Systems/TransformSystem.h:51-54 | the child loop refreshes every child's subtree and, from a settled state, leaves each child agreeing with `e` |
| `TransformSystemView.UpdateChildDirty` | src/Voxel/ECS/Systems/TransformSystem.h:53 | one recursive call in that loop adds the child to the refreshed set |
| `TransformSystemView.RootStep` | src/Voxel/ECS/Systems/TransformSystem.h:18-23 | one turn of the first pass adds a root to the refreshed roots and keeps the roots already refreshed agreed |
| `TransformSystemView.UpdateRoot` | src/Voxel/ECS/Systems/TransformSystem.h:20-22 | one root's recursion keeps the first pass's invariant with the root added |
| `TransformSystemView.UpdateRoots` | src/Voxel/ECS/Systems/TransformSystem.h:18-23 | the first pass refreshes the subtree of every parentless entity holding a transform and a hierarchy |
| `TransformSystemView.FlattenedAll` | src/Voxel/ECS/Systems/TransformSystem.h:26-34 | the loop over all transforms computes `Flattened` |
| `TransformSystemView.UpdateUnlinkedOne` | src/Voxel/ECS/Systems/TransformSystem.h:27-33 | one turn of the second pass flattens one entity: a dirty transform without a hierarchy takes its local matrix as world matrix and is cleaned |
| `TransformSystemView.UpdateUnlinked` | src/Voxel/ECS/Systems/TransformSystem.h:26-34 | the second pass flattens exactly the transforms without a hierarchy |
| `TransformSystemView.PassesCompose` | src/Voxel/ECS/Systems/TransformSystem.h:16-35 | the two passes together have `RunEffect`, and the second pass leaves the first pass's subtrees alone |
| `TransformSystemView.Run` | src/Voxel/ECS/Systems/TransformSystem.h:16-35 | only dirty transforms change, and only their world and flag; every transform below a root or without a hierarchy ends clean; hierarchy-holders outside every root's subtree are untouched; unlinked orphans are flattened; and when dirtiness is closed downwards and clean links agree, every link below every root agrees afterwards |
| `TransformSystemView.RunIdempotent` | src/Voxel/ECS/Systems/TransformSystem.h:16-35 | running the pass a second time changes nothing |
| `VisibilitySystem.VisLinks` | src/Voxel/ECS/Systems/VisibilitySystem.cpp:31-32 | definition: the hierarchy links of the entities that hold both a hierarchy and a meta component, which are the only ones the recursion enters; `VisLinksRanked` and `VisLinksShape` state what the restriction keeps |
| `VisibilitySystem.VisLinksRanked` | src/Voxel/ECS/Systems/VisibilitySystem.cpp:31-32 | restricting the links to those entities keeps them acyclic |
| `VisibilitySystem.VisLinksShape` | src/Voxel/ECS/Systems/VisibilitySystem.cpp:31-32 | and keeps a forest a forest and a consistent hierarchy consistent |
| `VisibilitySystem.UpdateVisibilityRecursive` | src/Voxel/ECS/Systems/VisibilitySystem.cpp:27-39 | only effective visibility changes, only within the visited subtree of `e`; `e`'s becomes `parentVisible` and its own visibility, and in a forest every visited child's is its parent's and its own throughout |
| `VisibilitySystem.VisibleChildren` | src/Voxel/ECS/Systems/VisibilitySystem.cpp:36-38 | the child loop leaves every child done |
| `VisibilitySystem.VisibleChild` | src/Voxel/ECS/Systems/VisibilitySystem.cpp:37 | one recursive call in the child loop adds that child to the done set |
| `VisibilitySystem.VisDetermined` | src/Voxel/ECS/Systems/VisibilitySystem.cpp:27-39 | in a forest the outcome of the pass from `e` with a given parent value is unique |
| `VisibilitySystem.UpdateVisibilityIdempotent` | src/Voxel/ECS/Systems/VisibilitySystem.cpp:27-39 | running the pass from `e` a second time with the same parent value changes nothing |
| `VisibilitySystem.VisQueuedStep` | src/Voxel/ECS/Systems/VisibilitySystem.cpp:10-23 | the loop invariant of `Run` survives one queued entity, which joins the done set when it has a meta component |
| `VisibilitySystem.VisQueuedSkipped` | src/Voxel/ECS/Systems/VisibilitySystem.cpp:31-32 | the pass from an entity without both components changes nothing |
| `VisibilitySystem.VisibleQueued` | src/Voxel/ECS/Systems/VisibilitySystem.cpp:11-22 | one turn of `Run`'s loop keeps the loop invariant |
| `VisibilitySystem.Run` | src/Voxel/ECS/Systems/VisibilitySystem.cpp:7-25 | the queue is emptied; only effective visibility changes, only below the queued visited entities; in a consistent forest each of those agrees with its parent (or with visible) and every link below it agrees |
| `RenderSystem.Instances` | src/Voxel/ECS/Systems/RenderSystem.cpp:44-47 | definition: the (entity, world matrix) pairs of a batch, slot by slot; `SwapRemovedInstances` and `AppendedIndexed` state how the batch operations change it |
| `RenderSystem.SwapRemoved` | src/Voxel/ECS/Systems/RenderSystem.cpp:67-79 | swap-removal shortens both vectors by one, forgets the entity's slot and marks the batch dirty |
| `RenderSystem.Appended` | src/Voxel/ECS/Systems/RenderSystem.cpp:42-49 | definition: a batch after `AddEntityToBatch`, matrix and entity appended, the slot set to the old size and the batch dirty; `AppendedIndexed` and `AppendedTwice` state its properties |
| `RenderSystem.AppendedIndexed` | src/Voxel/ECS/Systems/RenderSystem.cpp:42-49 | appending an entity not yet in the batch keeps every slot pointing at its entity and adds exactly its instance at the end |
| `RenderSystem.AppendedTwice` | src/Voxel/ECS/Systems/RenderSystem.cpp:42-49 | appending an entity already in the batch repoints its slot to the new copy and leaves the old copy unindexed |
| `RenderSystem.SwapRemovedIndexed` | src/Voxel/ECS/Systems/RenderSystem.cpp:67-79 | removing an indexed entity keeps every remaining slot pointing at its entity and drops exactly that slot |
| `RenderSystem.SwapRemovedInstances` | src/Voxel/ECS/Systems/RenderSystem.cpp:67-79 | the instances afterwards are the old ones as a multiset, minus exactly the removed entity's instance |
| `RenderSystem.RemovedMiddle` | src/Voxel/ECS/Systems/RenderSystem.cpp:70-79 | the same when the last instance moves into the removed slot |
| `RenderSystem.RemovedLast` | src/Voxel/ECS/Systems/RenderSystem.cpp:76-79 | the same when the removed slot is the last one |
| `RenderSystem.AppendThenRemove` | src/Voxel/ECS/Systems/RenderSystem.cpp:35-80 | adding a new entity and removing it again restores the batch, apart from its dirty flag |
| `RenderSystem.Renderer.constructor` | src/Voxel/ECS/Systems/RenderSystem.cpp:42 | no batches yet; each is created empty on first use |
| `RenderSystem.Renderer.AddEntityToBatch` | src/Voxel/ECS/Systems/RenderSystem.cpp:35-50 | nothing changes without a mesh or a transform; otherwise the mesh's batch (created empty if absent) gets the entity and its world matrix appended |
| `RenderSystem.Renderer.RemoveEntityFromBatch` | src/Voxel/ECS/Systems/RenderSystem.cpp:52-80 | nothing changes without a mesh, a batch for its model or a slot for the entity; otherwise that batch becomes its swap-removal |
| `RenderSystem.Renderer.Run` | src/Voxel/ECS/Systems/RenderSystem.cpp:20-32 | the same models; an empty batch is kept as it is and every other batch is uploaded and left clean |
| `Events.Calls` | src/Voxel/Event/Event.h:35-39 | definition: one (callback, data) call per observer, in registration order; `Subject.Notify` is proved to make exactly these calls |
| `Events.Without` | src/Voxel/Event/Event.h:43-47 | definition: the observer list without the entries carrying the id, the rest in order; `WithoutMembers`, `WithoutAbsent` and `WithoutKeepsIds` state its properties |
| `Events.WithoutMembers` | src/Voxel/Event/Event.h:43-47 | erase/remove_if keeps exactly the entries whose id differs from the removed one |
| `Events.WithoutAbsent` | src/Voxel/Event/Event.h:43-47 | removing an id no observer has changes nothing |
| `Events.WithoutKeepsIds` | src/Voxel/Event/Event.h:43-47 | removal keeps the ids increasing in registration order and below the next id |
| `Events.Subject.constructor` | src/Voxel/Event/Event.h:49-50 | no observers, and the first id handed out is 1 |
| `Events.Subject.AddObserver` | src/Voxel/Event/Event.h:28-32 | the callback is appended under the old next id, the next id grows by one, and the returned handle names this subject and that id |
| `Events.Subject.Notify` | src/Voxel/Event/Event.h:35-39 | every observer's callback is called once with the data, in registration order; the observer list is unchanged |
| `Events.Subject.RemoveObserver` | src/Voxel/Event/Event.h:43-47 | the observers become `Without` the id; the next id is unchanged |
| `Events.ObserverHandle.constructor` | src/Voxel/Event/Event.h:9 | a handle bound to no subject, with id 0 |
| `Events.ObserverHandle.Bound` | src/Voxel/Event/Event.h:10 | a handle bound to the given subject and id |
| `Events.ObserverHandle.Unsubscribe` | src/Voxel/Event/Event.h:12-16 | a bound handle removes its id from its subject's observers; either way the handle ends bound to no subject |
| `InputActions.AllActionsComplete` | src/Voxel/Input/InputActions.h:1-18 | the action list holds every action exactly once |
| `InputActions.ActionToString` | src/Voxel/Input/InputActions.h:20-29 | definition: each action's enumerator name, verbatim; `RoundTrip` and `NamesInjective` state its properties |
| `InputActions.StringToAction` | src/Voxel/Input/InputActions.h:31-38 | definition: the first enumerator whose name equals the string exactly and case-sensitively, `None` when none does; `RoundTrip` and `StringToActionOfOthers` state its properties |
| `InputActions.RoundTrip` | src/Voxel/Input/InputActions.h:20-38 | `StringToAction(ActionToString(a))` is `a` for every action |
| `InputActions.NamesInjective` | src/Voxel/Input/InputActions.h:20-29 | no two actions share a name |
| `InputActions.StringToActionOfOthers` | src/Voxel/Input/InputActions.h:31-38 | a string that names no action maps to `None`, and any string that maps to another action is that action's name |
| `InputBindings.Matches` | src/Voxel/Input/InputManager.cpp:82-89 | definition: a binding matches a chord with the same device and key whose mods include all of the binding's; `InputManager.FindMatchingAction` and `ConflictDependsOnOrder` state what builds on it |
| `InputBindings.NormaliseMods` | src/Voxel/Input/InputManager.cpp:206-208 | only the shift, control, alt and super bits survive, each as it was |
| `InputBindings.NormaliseIdempotent` | src/Voxel/Input/InputManager.cpp:206-208 | normalising twice is normalising once |
| `InputBindings.NormalisedMatch` | src/Voxel/Input/InputManager.cpp:88 | for a normalised binding, normalising the event's mods does not change whether it matches |
| `InputBindings.MatchesItself` | src/Voxel/Input/InputManager.cpp:82-89 | every chord matches itself |
| `InputBindings.AppendedBinds` | src/Voxel/Input/InputManager.cpp:46 | after appending a chord to an action, the action matches that chord, keeps matching what it matched, and no other action's matches change |
| `InputBindings.ConflictDependsOnOrder` | src/Voxel/Input/InputManager.cpp:88 | the conflict test is one-way: a Ctrl binding matches Ctrl+Shift, but a Ctrl+Shift binding does not match Ctrl |
| `InputBindings.RemoveFirst` | src/Voxel/Input/InputManager.cpp:61-64 | erasing the first occurrence shortens the vector by one when the chord is there, and changes nothing otherwise |
| `InputBindings.RemoveFirstMultiset` | src/Voxel/Input/InputManager.cpp:61-64 | erasing the first occurrence removes exactly one copy of the chord |
| `InputBindings.RemoveFirstAt` | src/Voxel/Input/InputManager.cpp:61-64 | it removes the element at the index `std::find` returns |
| `InputBindings.RemoveAppended` | src/Voxel/Input/InputManager.cpp:46-64 | removing the chord just appended to a vector that did not hold it restores the vector |
| `InputBindings.CallbacksFor` | src/Voxel/Input/InputManager.cpp:96-119 | definition: the callbacks `TriggerAction` runs for an action and a trigger, none when the action has no callbacks; `InputManager.TriggerAction` is proved to run exactly these |
| `InputBindings.WithCallback` | src/Voxel/Input/InputManager.cpp:18-31 | definition: an action's callbacks with one more appended to the trigger's list; `BoundCallbackLast` states its effect |
| `InputBindings.BoundCallbackLast` | src/Voxel/Input/InputManager.cpp:18-31 | binding a callback appends it to the callbacks of that action and trigger alone |
| `InputBindings.ButtonStates` | src/Voxel/Input/InputManager.cpp:136-145 | definition: the held states after a key or mouse-button event for a found action; `ButtonStatesLocal`, `PressTwice` and `ReleaseThenPress` state its properties |
| `InputBindings.ButtonFired` | src/Voxel/Input/InputManager.cpp:136-145 | definition: the callbacks such an event fires, Pressed ones for a press of an action not held and Released ones for every release; `PressTwice` and `ReleaseThenPress` state its properties |
| `InputBindings.PressTwice` | src/Voxel/Input/InputManager.cpp:136-141 | a press marks the action held, and a second press changes nothing and calls nothing |
| `InputBindings.ReleaseThenPress` | src/Voxel/Input/InputManager.cpp:136-145 | a release clears the held state and calls the Released callbacks, after which a press calls the Pressed callbacks again |
| `InputBindings.ButtonStatesLocal` | src/Voxel/Input/InputManager.cpp:136-145 | an event for one action leaves every other action's held state alone |
| `InputBindings.HeldCalls` | src/Voxel/Input/InputManager.cpp:72-77 | definition: the Held callbacks of the given actions, action by action in the given order; `HeldCallsConcat`, `HeldCallsOne` and `InputManager.Update` state what it fires |
| `InputBindings.HeldCallsConcat` | src/Voxel/Input/InputManager.cpp:72-77 | visiting one run of actions and then another fires the Held callbacks of the first run, then those of the second |
| `InputBindings.HeldCallsOne` | src/Voxel/Input/InputManager.cpp:73-75 | visiting a single action fires exactly the Held callbacks bound to it |
| `InputBindings.ScrollDirection` | src/Voxel/Input/InputManager.cpp:175-180 | definition: the scroll key of a vertical offset, up for a positive one, down for a negative one, 0 for none; `InputManager.OnScroll` states the behaviour built on it |
| `InputBindings.InputManager.constructor` | src/Voxel/Input/InputManager.cpp:10-16 | no bindings, callbacks or held states, and nothing called |
| `InputBindings.InputManager.BindAction` | src/Voxel/Input/InputManager.cpp:18-31 | the callbacks become `WithCallback` for the action and trigger; nothing else changes |
| `InputBindings.InputManager.FindMatchingAction` | src/Voxel/Input/InputManager.cpp:79-94 | `None` when no binding matches; otherwise an action one of whose chords matches |
| `InputBindings.InputManager.ChordsMatch` | src/Voxel/Input/InputManager.cpp:81-90 | true exactly when one of the action's chords matches |
| `InputBindings.InputManager.AddBinding` | src/Voxel/Input/InputManager.cpp:33-49 | it succeeds whenever no binding matches; whenever it succeeds it appends the chord to the action's vector, and then either nothing matched or the match found was bound to `None`; when it refuses, nothing changes and some binding matched |
| `InputBindings.InputManager.RemoveBinding` | src/Voxel/Input/InputManager.cpp:51-70 | succeeds exactly when the action has the chord, and then erases its first occurrence; otherwise changes nothing |
| `InputBindings.InputManager.TriggerAction` | src/Voxel/Input/InputManager.cpp:96-119 | the callbacks of that action and trigger are called in binding order; nothing else changes |
| `InputBindings.InputManager.OnButton` | src/Voxel/Input/InputManager.cpp:122-146 | a repeat or an unmatched chord changes nothing; otherwise the matched action's held state and calls follow `ButtonStates` and `ButtonFired` |
| `InputBindings.InputManager.OnKey` | src/Voxel/Input/InputManager.cpp:122-146 | a key event is `OnButton` on a keyboard chord |
| `InputBindings.InputManager.OnMouseButton` | src/Voxel/Input/InputManager.cpp:148-172 | a mouse-button event is `OnButton` on a mouse-button chord |
| `InputBindings.InputManager.OnScroll` | src/Voxel/Input/InputManager.cpp:174-200 | a zero offset or an unmatched chord calls nothing; otherwise the matched action's Pressed, Released and Held callbacks are called in that order; held states never change |
| `InputBindings.InputManager.Update` | src/Voxel/Input/InputManager.cpp:72-77 | the Held callbacks of exactly the held actions are called, each action once |
| `KeyTable.Bound` | src/Voxel/InputManager.cpp:17-48 | definition: a key's entries after `BindNewKey`, the callback appended to the first entry for the (action, mods) pair or a new entry last; `BoundUnique` and `BoundFired` state its properties |
| `KeyTable.Fired` | src/Voxel/InputManager.cpp:52-67 | definition: the callbacks `KeyCallback` runs for an (action, mods) pair, entry by entry; `FiredUnique` and `BoundFired` state its properties |
| `KeyTable.FirstEntry` | src/Voxel/InputManager.cpp:22-29 | the index the scan stops at: the first entry for the pair, or the end, with no entry for the pair before it |
| `KeyTable.FiredUnique` | src/InputManager.cpp:44-64 | with one entry per pair, a key event runs that entry's callbacks, or nothing |
| `KeyTable.BoundUnique` | src/InputManager.cpp:7-40 | binding keeps one entry per pair and adds at most one entry |
| `KeyTable.BoundFired` | src/Voxel/InputManager.cpp:14-67 | after binding, the pair's event runs the old callbacks and then the new one; every other pair runs what it ran |
| `KeyTable.KeyBindings.constructor` | src/Voxel/InputManager.cpp:7-12 | an empty key table and nothing run |
| `KeyTable.KeyBindings.BindNewKey` | src/Voxel/InputManager.cpp:14-49 | that key's entries become `Bound` (an unbound key starts empty); no other key changes and nothing runs |
| `KeyTable.KeyBindings.KeyCallback` | src/Voxel/InputManager.cpp:52-67 | every callback of every entry of the key for exactly that (action, mods) runs in order; an unbound key runs none; the table is unchanged |
| `KeyTable.KeyBindings.RunEntry` | src/Voxel/InputManager.cpp:61-63 | the callbacks of one entry run in order |
| `KeyTable.KeyBindings.Cleanup` | src/Voxel/InputManager.cpp:79 | the table becomes empty, so every later key event runs nothing |
| `SettingsText.IsSpace` | src/Voxel/EditorSettings.h:100 | definition: `std::isspace` in the C locale, space and the characters from `\t` to `\r`; `SkipSpaceAll` and `TrimmedEdges` build on it |
| `SettingsText.SkipSpace` | src/Voxel/EditorSettings.h:102 | the index the forward `find_if` stops at: at or after `i`, and not whitespace when inside the string |
| `SettingsText.SkipSpaceBack` | src/Voxel/EditorSettings.h:104 | the index the backward `find_if` stops at: at or before `j`, just after a non-space character when above 0 |
| `SettingsText.SkipSpaceAll` | src/Voxel/EditorSettings.h:102 | everything the forward scan passes over is whitespace |
| `SettingsText.SkipSpaceBackAll` | src/Voxel/EditorSettings.h:104 | everything the backward scan passes over is whitespace |
| `SettingsText.Trimmed` | src/Voxel/EditorSettings.h:99-105 | definition: the string with its leading and then its trailing whitespace erased; `TrimmedEdges`, `TrimmedPiece` and `TrimmedIdempotent` state its properties |
| `SettingsText.TrimmedEdges` | src/Voxel/EditorSettings.h:99-105 | a trimmed string has no whitespace at either end |
| `SettingsText.TrimmedPiece` | src/Voxel/EditorSettings.h:99-105 | trimming keeps a contiguous middle piece and erases only whitespace around it |
| `SettingsText.TrimmedFixed` | src/Voxel/EditorSettings.h:99-105 | a string with no whitespace at its ends is its own trim |
| `SettingsText.TrimmedIdempotent` | src/Voxel/EditorSettings.h:99-105 | trimming twice is trimming once |
| `SettingsText.Trim` | src/Voxel/EditorSettings.h:99-105 | the two erasures together compute `Trimmed` |
| `SettingsText.FirstNonSpace` | src/Voxel/EditorSettings.h:102 | the first non-space index, or the length: everything before it is whitespace |
| `SettingsText.LastNonSpaceEnd` | src/Voxel/EditorSettings.h:104 | the index just after the last non-space character, or 0: everything from it on is whitespace |
| `SettingsText.FindChar` | src/Voxel/EditorSettings.h:154 | definition: `std::string::find` of one character from the start, the length standing for `npos`; `FindCharFromAll` and `FindFirst` state its properties |
| `SettingsText.FindCharFrom` | src/Voxel/EditorSettings.h:154 | the index `find` returns: at or after the start, holding the character when inside the string |
| `SettingsText.FindCharFromAll` | src/Voxel/EditorSettings.h:154 | no occurrence comes before the index `find` returns |
| `SettingsText.Lines` | src/Voxel/EditorSettings.h:139 | the lines `getline` reads contain no line break |
| `SettingsText.JoinLines` | src/Voxel/EditorSettings.h:189-206 | definition: the lines written one after another, each ended by a line break; `JoinLinesAppend` and `LinesOfJoin` state its properties |
| `SettingsText.JoinLinesAppend` | src/Voxel/EditorSettings.h:189-206 | writing one more line appends it and its line break |
| `SettingsText.LinesOfJoin` | src/Voxel/EditorSettings.h:139-165 | reading back lines written one per line, none holding a break, gives the same lines |
| `SettingsText.FindFirst` | src/Voxel/EditorSettings.h:154 | in `a + b` with `c` absent from `a` and first in `b`, `find` returns the length of `a` |
| `SettingsText.DigitChar` | src/Voxel/EditorSettings.h:81 | each decimal digit has a digit character of that value |
| `SettingsText.StoiDigits` | src/Voxel/EditorSettings.h:45 | definition: the digit run `stoi` reads after the sign, negated for a minus, `None` when there are no digits or the value leaves the int range; `StoiAllDigits`, `StoiUnsigned` and `StoiSigned` state its behaviour |
| `SettingsText.DigitEndAll` | src/Voxel/EditorSettings.h:45 | the digit run `stoi` reads consists of digits only |
| `SettingsText.NatToString` | src/Voxel/EditorSettings.h:81 | `to_string` of a non-negative int is a non-empty string of digits |
| `SettingsText.IntToString` | src/Voxel/EditorSettings.h:80-82 | definition: `std::to_string` of an int, a minus sign for a negative value and then the decimal digits; `NatToString` and `StoiOfIntToString` state its properties |
| `SettingsText.Stoi` | src/Voxel/EditorSettings.h:43-49 | definition: `std::stoi`, which skips leading whitespace, reads an optional sign and the longest digit run, and throws (here `None`) without digits or outside the int range; `StoiOfIntToString`, `StoiAllDigits` and `StoiSigned` state its behaviour |
| `SettingsText.StoiOfIntToString` | src/Voxel/EditorSettings.h:43-49 | `stoi(to_string(v))` is `v` for every int |
| `SettingsText.StoiAllDigits` | src/Voxel/EditorSettings.h:45 | a whole string of digits is read as its value |
| `SettingsText.StoiUnsigned` | src/Voxel/EditorSettings.h:45 | `stoi` of such a string whose value fits is that value |
| `SettingsText.StoiNoSign` | src/Voxel/EditorSettings.h:45 | a string starting with a digit is read without a sign |
| `SettingsText.StoiSigned` | src/Voxel/EditorSettings.h:45 | a minus sign before such a string gives the negated value |
| `SettingsText.StoiMinus` | src/Voxel/EditorSettings.h:45 | a minus sign followed by a digit is read as a negative number |
| `SettingsText.DigitRunAll` | src/Voxel/EditorSettings.h:45 | a string of digits is read to its end |
| `SettingsText.LowerChar` | src/Voxel/EditorSettings.h:67 | definition: `::tolower` on one character in the C locale, only A to Z changing; `ToLower` states what it does to a string |
| `SettingsText.ToLower` | src/Voxel/EditorSettings.h:66-67 | `transform` with `tolower` keeps the length, leaves no upper-case letter, and changes no character outside A to Z |
| `SettingsText.ToLowerIdempotent` | src/Voxel/EditorSettings.h:66-67 | lowering an already lowered string changes nothing |
| `SettingsText.LexLess` | src/Voxel/EditorSettings.h:187 | definition: `std::string`'s `operator<` that `std::sort` orders by, the first differing character deciding and a proper prefix coming first; `LexIrreflexive`, `LexTransitive` and `LexTotal` state that it is a strict total order |
| `SettingsText.LexIrreflexive` | src/Voxel/EditorSettings.h:187 | `std::string`'s `<` is irreflexive |
| `SettingsText.LexTransitive` | src/Voxel/EditorSettings.h:187 | and transitive |
| `SettingsText.LexTotal` | src/Voxel/EditorSettings.h:187 | and total on distinct strings, so `std::sort` order is determined |
| `SettingsText.HasLeastString` | src/Voxel/EditorSettings.h:187 | a finite non-empty set of strings has a first element |
| `SettingsText.LeastUnique` | src/Voxel/EditorSettings.h:187 | that element is unique |
| `SettingsText.Least` | src/Voxel/EditorSettings.h:187 | the first element of a non-empty set |
| `SettingsText.SortedStrings` | src/Voxel/EditorSettings.h:181-187 | the sorted vector holds exactly the elements of the set, each once |
| `SettingsText.SortedStringsAscending` | src/Voxel/EditorSettings.h:187 | and is strictly ascending |
| `SettingsText.SortStrings` | src/Voxel/EditorSettings.h:181-187 | collecting the names and sorting them gives `SortedStrings` |
| `EditorSettings.Put` | src/Voxel/EditorSettings.h:74-75 | `s_Data[section][key] = value` adds the section when missing and no other |
| `EditorSettings.PutTwice` | src/Voxel/EditorSettings.h:74-75 | a second assignment to the same key overrides the first |
| `EditorSettings.LookupPut` | src/Voxel/EditorSettings.h:30-41 | after an assignment the key reads back the value, and every other key reads back what it did |
| `EditorSettings.Has` | src/Voxel/EditorSettings.h:109-115 | definition: whether the section exists and holds the key; `HasPut` states how a write changes it |
| `EditorSettings.HasPut` | src/Voxel/EditorSettings.h:109-115 | after a write the written key is present, and no other key appears or disappears |
| `EditorSettings.GetString` | src/Voxel/EditorSettings.h:30-41 | definition: the stored value, or the default when the section or the key is missing; `GetStringPut` states the read-back |
| `EditorSettings.GetStringPut` | src/Voxel/EditorSettings.h:30-41 | after a write `GetString` returns the written value whatever the default, and every other key reads as before |
| `EditorSettings.GetInt` | src/Voxel/EditorSettings.h:43-49 | definition: `stoi` of the stored string (the empty string when missing), the default when `stoi` throws; `GetIntAfterSetInt` states the read-back |
| `EditorSettings.GetBool` | src/Voxel/EditorSettings.h:60-70 | definition: the default for a missing or empty value, otherwise whether the lower-cased value is `true` or `1`; `GetBoolAfterSetBool` and `GetBoolExamples` state its behaviour |
| `EditorSettings.GetIntAfterSetInt` | src/Voxel/EditorSettings.h:43-49 | an int stored by `SetInt` reads back as itself |
| `EditorSettings.GetBoolAfterSetBool` | src/Voxel/EditorSettings.h:60-70 | a bool stored by `SetBool` reads back as itself |
| `EditorSettings.GetBoolExamples` | src/Voxel/EditorSettings.h:60-70 | `TRUE` and `1` read as true in any case, and `yes` reads as false even with a true default |
| `EditorSettings.ParseLine` | src/Voxel/EditorSettings.h:140-164 | definition: one turn of `Load`'s loop on a line, in the source's order of tests: trimmed, skipped when empty or a comment, a header switching section, skipped without `=`, else one trimmed assignment; `ParseLineEffect` states its effect |
| `EditorSettings.ParseTrimmed` | src/Voxel/EditorSettings.h:142-164 | definition: `ParseLine` on the line once trimmed, with the tests in the source's order; `ParseLineEffect`, `HeaderParsed` and `PairParsed` state its effect |
| `EditorSettings.Parsed` | src/Voxel/EditorSettings.h:139-165 | definition: `Load`'s loop over the lines in file order; `ParsedConcat` and `SaveLoadRoundTrip` state its properties |
| `EditorSettings.ParseLineEffect` | src/Voxel/EditorSettings.h:139-165 | a line either changes nothing, switches to a trimmed section, or assigns one key in the current section |
| `EditorSettings.ParsedConcat` | src/Voxel/EditorSettings.h:139-165 | parsing two texts one after another is parsing their concatenation |
| `EditorSettings.PairLines` | src/Voxel/EditorSettings.h:202-204 | one `key=value` line per key |
| `EditorSettings.DataLinesAppended` | src/Voxel/EditorSettings.h:189-207 | each turn of the section loop appends a header, the section's pairs in sorted key order, and a blank line |
| `EditorSettings.PairLinesStep` | src/Voxel/EditorSettings.h:202-204 | each turn of the key loop appends one `key=value` line |
| `EditorSettings.Pairs` | src/Voxel/EditorSettings.h:194-200 | the pairs written for a key list hold exactly the listed keys with their values |
| `EditorSettings.Sections` | src/Voxel/EditorSettings.h:181-189 | the sections written for a name list hold exactly the listed sections |
| `EditorSettings.SaveLoadRoundTrip` | src/Voxel/EditorSettings.h:125-211 | for data whose names survive trimming and hold no separators, loading the text `SaveInternal` writes gives back exactly the same data |
| `EditorSettings.SectionsParsed` | src/Voxel/EditorSettings.h:139-165 | reading back the lines written for a list of sections gives exactly those sections |
| `EditorSettings.SectionParsed` | src/Voxel/EditorSettings.h:148-164 | reading a header and its pairs stores that section's pairs |
| `EditorSettings.HeaderParsed` | src/Voxel/EditorSettings.h:148-152 | a written header line switches to its section and stores nothing |
| `EditorSettings.PairParsed` | src/Voxel/EditorSettings.h:154-164 | a written `key=value` line stores that value under that key in the current section |
| `EditorSettings.PairsParsed` | src/Voxel/EditorSettings.h:154-164 | a section's written pairs store each of them in turn |
| `EditorSettings.PutAllPairs` | src/Voxel/EditorSettings.h:164 | storing a section's pairs one by one merges them into the section |
| `EditorSettings.PairLinesSnoc` | src/Voxel/EditorSettings.h:202-204 | reading one more written pair stores it after the others |
| `EditorSettings.Settings.constructor` | src/Voxel/EditorSettings.h:93-97 | no data, no path, not dirty, and nothing on disk |
| `EditorSettings.Settings.SetString` | src/Voxel/EditorSettings.h:72-78 | the key holds the value afterwards (even when the entry is created with the same empty value); the dirty flag is set exactly when the stored value differed |
| `EditorSettings.Settings.SetInt` | src/Voxel/EditorSettings.h:80-82 | stores `to_string(value)` as `SetString`, after which `GetInt` reads back the value |
| `EditorSettings.Settings.SetBool` | src/Voxel/EditorSettings.h:88-90 | stores `true` or `false` as `SetString`, after which `GetBool` reads back the value |
| `EditorSettings.Settings.SetDefault` | src/Voxel/EditorSettings.h:117-123 | a present key is kept and the dirty flag untouched; a missing key is stored and the settings become dirty |
| `EditorSettings.Settings.EnsureDefaults` | src/Voxel/EditorSettings.h:107 | `Editor.UIScale` is present afterwards, stored as `1.0` only when it was missing |
| `EditorSettings.Settings.Save` | src/Voxel/EditorSettings.h:22-28 | the file is written only when dirty, and the settings are clean afterwards |
| `EditorSettings.Settings.SaveInternal` | src/Voxel/EditorSettings.h:173-211 | the file at the path holds `Rendered`: the sections in sorted order, each header followed by its pairs in sorted key order and a blank line |
| `EditorSettings.Rendered` | src/Voxel/EditorSettings.h:181-207 | definition: the text `SaveInternal` writes, the sections in ascending order, each its header, its sorted pairs and a blank line; `SaveLoadRoundTrip` states that `Load` reads it back |
| `EditorSettings.Settings.Render` | src/Voxel/EditorSettings.h:181-207 | the text written is `Rendered` of the data |
| `EditorSettings.Settings.RenderSections` | src/Voxel/EditorSettings.h:189-207 | the section loop writes the lines of each listed section in turn |
| `EditorSettings.Settings.WriteSection` | src/Voxel/EditorSettings.h:190-206 | one turn of the section loop appends that section's lines |
| `EditorSettings.Settings.WritePairs` | src/Voxel/EditorSettings.h:202-204 | the key loop appends one `key=value` line per key, in order |
| `EditorSettings.Settings.ReadLine` | src/Voxel/EditorSettings.h:140-164 | one turn of the read loop is `ParseLine` on the current section and data |
| `EditorSettings.Settings.Load` | src/Voxel/EditorSettings.h:125-171 | sets the path and clears the data; fails and writes nothing to the output when the file cannot be opened; otherwise succeeds with the output being the file's lines parsed into it |
| `EditorSettings.Settings.Initialise` | src/Voxel/EditorSettings.h:7-20 | the data becomes what was loaded (nothing if the file could not be opened) with `Editor.UIScale` defaulted; the file is rewritten exactly when the settings were dirty or the default was added; the settings end clean |
| `Profiling.Zeros` | src/Voxel/Log/Profiler.h:10 | definition: the value-initialised array, all zeros; `Ring` starts from it and `RingAt` shows which slots still hold it |
| `Profiling.Next` | src/Voxel/Log/Profiler.h:15 | the next slot index stays within the ring |
| `Profiling.Cursor` | src/Voxel/Log/Profiler.h:13-16 | the slot the next value goes to is within the ring |
| `Profiling.Ring` | src/Voxel/Log/Profiler.h:13-16 | the ring's contents keep its size |
| `Profiling.Window` | src/Voxel/Log/Profiler.h:34-39 | definition: the last `n` values written, oldest first (all of them while fewer were written); `RingRotated`, `RingSum` and `FrameTimer.GetAverage` tie the ring buffer to it |
| `Profiling.Sum` | src/Voxel/Log/Profiler.h:37 | definition: `std::accumulate` from 0.0; `SumConcat` and `SumRotated` state its properties |
| `Profiling.Mean` | src/Voxel/Log/Profiler.h:34-39 | definition: the sum over the count, 0 for no values; `FrameTimer.GetAverage` is proved to return the mean of the window |
| `Profiling.SumConcat` | src/Voxel/Log/Profiler.h:37 | accumulating a concatenation adds the two sums |
| `Profiling.NextMod` | src/Voxel/Log/Profiler.h:15 | the wrap-around by `% n` is the next slot |
| `Profiling.Advance` | src/Voxel/Log/Profiler.h:28 | the index update of `AddSample` moves to the next slot |
| `Profiling.CursorMod` | src/Voxel/Log/Profiler.h:15 | after `w` writes the cursor is `w % n` |
| `Profiling.CursorDistinct` | src/Voxel/Log/Profiler.h:13-16 | fewer than `n` writes apart never share a slot |
| `Profiling.RingAt` | src/Voxel/Log/Profiler.h:13-16 | each of the last `n` values written is still in the slot it went to |
| `Profiling.RingPrefix` | src/Voxel/Log/Profiler.h:26-31 | while not full, the first slots hold the values in the order written |
| `Profiling.RingRotated` | src/Voxel/Log/Profiler.h:26-31 | once full, the ring is the window rotated at the cursor |
| `Profiling.SumRotated` | src/Voxel/Log/Profiler.h:37 | a rotation has the same sum |
| `Profiling.RingSum` | src/Voxel/Log/Profiler.h:34-39 | the sum over the first `count` slots is the sum of the window |
| `Profiling.GraphFrameHistory.constructor` | src/Voxel/Log/Profiler.h:10-11 | a zeroed ring of 200 slots with no values written |
| `Profiling.GraphFrameHistory.Add` | src/Voxel/Log/Profiler.h:13-16 | the value goes in the slot at `index`, which moves on modulo 200; the ring keeps holding the tail of everything added |
| `Profiling.FrameTimer.constructor` | src/Voxel/Log/Profiler.h:22-24 | a zeroed ring of `N` slots, index and count 0, last frame 0 |
| `Profiling.FrameTimer.NotFullIndex` | src/Voxel/Log/Profiler.h:26-31 | while not full, the index equals the count and the first `count` slots are the samples in order |
| `Profiling.FrameTimer.FullOrder` | src/Voxel/Log/Profiler.h:26-31 | once full, reading from the index round to it gives the last `N` samples oldest first |
| `Profiling.FrameTimer.AddSample` | src/Voxel/Log/Profiler.h:26-31 | `lastFrame` goes in the slot at the index, the index moves to the next slot, the count grows up to `N` |
| `Profiling.FrameTimer.GetAverage` | src/Voxel/Log/Profiler.h:34-39 | the mean of the last `N` samples (of all of them while fewer were taken), 0 when none were taken |
| `Profiling.Profiler.constructor` | src/Voxel/Log/Profiler.h:45-67 | the graph history and one 120-sample timer per named timer, all fresh and empty, every timer's `lastFrame` 0 |
| `Profiling.Profiler.UpdateAverages` | src/Voxel/Log/Profiler.h:69-94 | the frame timer's last frame is added to the graph history and every timer takes its own last frame as a sample; no timer's `lastFrame` changes |
| `Profiling.Profiler.SampleAll` | src/Voxel/Log/Profiler.h:72-93 | every timer takes one sample of its own last frame, no `lastFrame` changes, and the graph history is untouched |
| `Profiling.Profiler.TakeSample` | src/Voxel/Log/Profiler.h:72 | timer `i` takes one sample of its last frame and keeps that last frame; every other timer is untouched |

## Left out

- Floating point: frame times are reals, with no rounding. Matrices, vectors and quaternions are symbolic terms, so the glm arithmetic is not modelled. That covers `glm::inverse`, `DecomposeTransform`, the Euler-angle conversion and the matrix products.
- `EditorSettings::GetFloat` and `SetFloat` are not modelled, because `stof` and `to_string` on `float` depend on floating-point formatting.
- OpenGL, ImGui, GLFW polling (`IsKeyDown`, `RawMouseInput`, `RawScrollInput`, the `Raw*` forwarders) and `ScopedTimer`/`std::chrono` are left out: they are I/O and clocks.
- The RenderSystem draw calls are left out: shader uniforms, instance-buffer upload and `Render`. `Renderer.Run` keeps only the batch bookkeeping.
- The older view-driven draw loop of `src/Voxel/ECS/Systems/RenderSystem.h` is not part of this model.
- File I/O is modelled by values:
  - the settings file's text is a parameter (`None` when it cannot be opened);
  - writing is an update of a `disk` map from path to text;
  - the temporary `.tmp` file and the `rename` are one write at the path;
  - the silent return when the temporary file cannot be opened is not modelled.
- `EditorSettings.Settings.Load`: `catch (...)` is not modelled. Nothing in the modelled read loop can throw.
- Static members and singletons (`GetInstance`, the systems' registry pointers, `EditorSettings`'s statics, `Profiler`'s timers) are fields of one object, or a parameter `w`.
- Integer widths:
  - entities are unbounded naturals, so `++nextEntity` never wraps;
  - `src/Voxel/ECS/Entity.h`, which declares the entity type, is not part of this model;
  - `size_t` observer ids and indices never wrap;
  - `int` is a 32-bit range only where text conversion needs it (`Int32`).
- GLFW's values are fixed here: `GLFW_RELEASE`/`PRESS`/`REPEAT` are 0/1/2 and the modifier bits are 1, 2, 4, 8. `SCROLL_UP` and `SCROLL_DOWN` are not defined in any of the source files and are taken as 1 and -1.
- `InputManager::SaveBindings`, `LoadBindings` and `RebuildLookup` are empty stubs or unused and are not modelled. The `lookup` map is never written.
- `InputBindings.InputManager.FindMatchingAction`: `unordered_map` iteration order is unspecified, so the contract states only that some matching action is returned, not which one. `Update` likewise exposes its visiting order as a ghost result.
- The legacy entity system under `src/Entity/` and `VoxelEditor/` is not part of this model.
- `Profiling.FrameTimer.constructor`: the template size `N` is a constructor parameter. `Profiler` uses the default of 120.
- `std::sort` is modelled by its result: the ascending sequence of the set (`SortedStrings`). Only strictly ascending order is specified, which for distinct strings is the only sorted order.
- `ComponentStorage`'s `Size`, `All` and `At` and `View::GetPrimaryEntity` are plain accessors, as is the iterator's `operator!=` (`NotEqual`). They carry no contract of their own.
- `View<Ts...>` is modelled over one payload type: a sequence of storages of the same `T`. `EntityRegistry` likewise keeps every component type's storage over the same `T`, component types being told apart by a `TypeId`. Heterogeneous tuples of component types are not modelled; no behaviour is lost, because neither the registry nor the view inspects component values.
- `EntityRegistry.Registry.MakeView` requires distinct component types, which `std::get` on the storage tuple needs to compile, and storage sizes below `SIZE_MAX`.
- `Views.FindSmallestStorage` is a module-level method, called before the view is built, so the view's primary index stays fixed.
- `Views.Iterator.Deref` requires the components to be found when the index is in range. Dereferencing a missing lookup is undefined behaviour in the source.
- `Views.View.GetAll` has the same requirement.
- The scene-graph layer stores component values in maps keyed by entity with the exact lookup, instead of going through `ComponentStorage`. Its passes visit queued or root entities as sets and sequences, not through `View` objects.
- The `Scene.World` setters and `MarkDirty` require the entity and its reachable children to hold a transform. The source dereferences `GetComponent` without a null check.
- `TransformSystem.IsDescendant` requires a hierarchy on every node it visits. `TransformSystem.RunQueue` requires each queued entity's parent to hold a transform. `VisibilitySystem.Run` requires each queued entity to hold a hierarchy and a valid parent to hold a MetaComponent (src/Voxel/ECS/Systems/VisibilitySystem.cpp:12-19). All three come from unchecked dereferences in the source.
- `RenderSystem.Renderer.RemoveEntityFromBatch` requires a found slot to be in range. The source indexes the vectors unchecked.
- Links that are not a forest: the agreement results of every recursive pass are stated only for forests, where no entity is listed as a child twice. On other link shapes only the frame results are proved ("nothing outside the subtree changes").
- `TransformSystem.Reparent` does not derive that the relinked hierarchy is acyclic. `Reparent` itself checks nothing; its caller in the hierarchy panel refuses a drop onto the entity itself or onto a descendant (`IsDescendant`, src/Voxel/UI/Panels/HierarchyPanel.h:57-58), and the rank the model requires for the relinked links stands for that check.
- Version skew between headers and sources:
  - `TransformSystem.cpp` uses a `dirtyEntities` queue that `TransformSystem.h` does not declare. The two generations are modelled separately.
  - `InputManager.cpp` uses `InputDevice::MouseScroll` and `OnScroll`, which `InputManager.h` lacks.
  - `Camera.cpp` binds `FreeCam_*` actions that `InputActions.h` does not list. The action table follows `InputActions.h`.
  - `ComponentStorage::Clear` is called by the registry but not declared. It is modelled as emptying the storage.

## Findings

| source | as written | input that shows it | evidently intended | confidence | as-written member | corrected member |
|---|---|---|---|---|---|---|
| src/Voxel/ECS/ComponentStorage.h:45-48 | `Find` returns the `lower_bound` position without checking that the entity there is the one asked for, so `Has`, `Get` and `Remove` act on whatever entity comes next | a storage holding only entity 2; `Has(1)` is true and `Get(1)` returns entity 2's component | a lookup succeeds only for a stored entity | not executed | `ComponentStorage.LookupAcceptsAbsentEntity` | `ComponentStorage.FindExactIsMembership` |
| src/Voxel/ECS/Components/HierarchyComponent.h:11-15 | the parent constructor inserts its own `entity` field into the parent's children, but `AddComponent` stamps that field only after construction | the field is uninitialised (`Entity entity;` has no initialiser and `T comp(args...)` is a local), so the inserted id is indeterminate; with the example value 0, entity 2 attached under entity 1 has the parent 1, but 1's children do not contain 2 | the new entity's id is inserted, so parent and children agree | not executed | `Scene.AttachedAsWrittenBreaksLink` | `Scene.AttachedKeepsConsistent` |
| src/Voxel/ECS/Components/TransformComponent.h:27-31 | the posing constructor's `UpdateTransform` runs `MarkDirty` on the unstamped `entity` field, so it marks the children of whatever entity the field names | the field is uninitialised, so the entity marked from is indeterminate; with the example value 5, where 5 has child 6, a transform made for entity 1 marks entity 6 dirty | only the new entity's own subtree is marked | not executed | `Scene.PosedAsWrittenMarksStranger` | `Scene.World.AddTransform` |
