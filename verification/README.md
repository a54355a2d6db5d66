# Bevy model

A model, in Dafny, of the parts of this repository whose correctness rests on bookkeeping that spans
functions: the entity-component store of `bevy-ecs`, change ticks, the reflection library, and the
concurrency protocols of `bevy_tasks` and the interner.

**The world** (`Collections`, `Storage`, `Locations`, `Stores`, `Graph`, `ArchetypeIds`, `Growth`, `EdgeTargets`,
`Moves`, `Writes`, `Effects`, `Removals`, `Triggers`, `Inserters`, `Spawners`, `Removers`, `Worlds`). `World`
is a class whose methods take the steps of `BundleInserter`, `BundleSpawner`, `EntityWorldMut` and the
archetype graph, in their order. `Store` is its state as a value; `Abs` is what a caller can observe of it, a
map from live entities to component maps with values and ticks. `Inv` collects what every method keeps:
metadata, archetype rows and table rows are inverse to each other; cached edges are exact; there is one
archetype per component set; every table cell is initialised; every sparse set holds exactly the entities it
should. The nested structures of the Rust types (`Archetypes` owning `Archetype`s owning rows, `Tables` owning
`Table`s owning columns) are owned by value and never shared, so they are value-typed fields of the one
object that changes in place.

**Its meaning** (`Semantics`, `Histories`, `Scenarios`). `Takes` says what one operation does to the observable
map, which hooks fire and which removal events are sent. `RunOps` proves that every run of the world is a run of
these steps; the conservation laws are about all such runs. A history starts at `World::new` and registers
components and bundles between operations; which archetypes share tables, and when handles are reused, are laws
of all histories.

**Ticks** (`Clocks`, `Ticks`). `ChangeClock` stores wrapped 32-bit ticks and is scanned; `TrueClock` never wraps, and
is replayed from the history of events; the dates it shows are also defined by positions in the history. Scans are at most `2 * CHECK_TICK_THRESHOLD - 1` ticks apart, as the
constants of `change_detection.rs` demand, and `ScanGapExactIff` shows that one tick more is too many. A world
that is checked every `CHECK_TICK_THRESHOLD` ticks keeps to that. No system is running during a scan.

**Reflection** (`TypeRegistries`, `ReflectValues`, `ReflectMeanings`, `ReflectOps`, `DynamicContainers`). Values are
trees; a child is addressed by a label (name, position or key), which makes the laws of patching and comparison
one proof for all kinds. The loops of each container kind are proved against that, and `ReflectMeanings` says what
the outcome is in terms of the values alone.

**Protocols** (`TaskScope`, `ScopeRuns`, `Interning`). State machines over the steps of all threads. A spawn is two steps, so
a future can finish before its handle is in the queue; the interner's locks are explicit.

**Smaller cores** (`Labels`, `Chunking`).

## Where the code differs from what it says

- Same table iff same table components fails after a removal leaves no table components
  (`Scenarios.SecondEmptyTable`); `Worlds.World.RemoveBundleFromArchetype` says exactly which removals do
  that, and `Histories.TablesMirrorIff` gives the exact condition over whole histories.
- `on_remove` fires for components of the bundle that the entity does not have
  (`Triggers.RemoveFiresForAbsentComponent`); `Triggers.RemoveTriggersExactIff` gives the exact condition.
- `take` of an empty bundle returns `None` although the entity has every component in it
  (`Worlds.World.Take`, `Scenarios.EmptyBundleIsNotTaken`).
- Last-run ticks of the schedule being run, and `World::last_change_tick`, are not scanned
  (`Ticks.MissedChange`, `Ticks.UnscannedExactIff`).
- An index and a generation are said to identify an entity uniquely; a handle comes back after 2^31 - 1 frees of
  its index, and not before (`Histories.HandlesRepeatIff`, `Histories.StaleHandlesStayStale`).
- `overwrite_registration` of an already registered type makes its own short name ambiguous
  (`TypeRegistries.OverwritingIsAmbiguous`, `TypeRegistries.AmbiguousIffIndexedTwice`).
- `DynamicMap::remove` leaves a stale index unless the last entry is removed
  (`DynamicContainers.RemoveConfuses`, `DynamicContainers.DynamicMap.Remove`).
- `par_splat_map` can make almost twice the documented maximum of chunks (`Chunking.SplatExceedsMaximum`,
  `Chunking.SplatCount`).

## Model

| member | source | states |
|---|---|---|
| Storage.SparseSet.Insert | bevy-ecs/src/storage/sparse_set.rs:167-190 | the entity gets the new value; an entry that was there keeps its added tick, a new one gets both; every other entity reads what it read before |
| Storage.SparseSet.Remove | bevy-ecs/src/storage/sparse_set.rs:303-325 | the swap-remove with its re-pointed sparse entry takes out that entity and is invisible to every other |
| Stores.IndexesAreInverse | bevy-ecs/src/entity/mod.rs:739-750 | an entity has location (a, r, t, s) iff row r of archetype a is (entity, s), archetype a uses table t, and row s of table t is the entity |
| Stores.LookupMatchesArchetype | bevy-ecs/src/archetype.rs:559-570 | a live entity can be asked for a component iff its archetype lists it, whichever storage the component is in |
| Locations.LeaveArchetype | bevy-ecs/src/archetype.rs:532-543 | after swap_remove and one metadata patch, metadata and archetype rows are inverse again except for the entity that left |
| Locations.LeaveTable | bevy-ecs/src/storage/table.rs:577-588 | after the table swap_remove and one metadata patch, metadata and table rows are inverse again except for the entity that left |
| Locations.SwappedIntoTableRow | bevy-ecs/src/storage/table.rs:577-588 | the entity swapped into a vacated table row is another, live entity that stood in the last row |
| Locations.PatchKeepsArchetypeSide | bevy-ecs/src/archetype.rs:495-497 | patching the table row of the swapped entity in its metadata and in its archetype keeps the two inverse |
| Locations.EnterArchetype | bevy-ecs/src/archetype.rs:505-519 | allocating a row and writing the returned location makes metadata and archetype rows fully inverse |
| Locations.EnterTable | bevy-ecs/src/storage/table.rs:735-745 | allocating a table row and writing the location makes metadata and table rows fully inverse |
| Graph.OneArchetypePerComponentSet | bevy-ecs/src/archetype.rs:817-868 | two archetypes with the same component set are the same archetype |
| Graph.ExactEdgesAreUnique | bevy-ecs/src/bundle.rs:444-532 | an exact add edge is the only one that a fresh computation could produce |
| Graph.SameTableSameComponents | bevy-ecs/src/storage/table.rs:859-879 | archetypes that share a table have the same list of table components |
| Graph.TablesMirrorComponentsIff | bevy-ecs/src/storage/table.rs:802-810 | same table iff same table components holds for all archetypes of a world exactly when every archetype without table components uses table 0 |
| Graph.NewArchetypeKeepsGraph | bevy-ecs/src/archetype.rs:343-390 | appending an archetype built from two sorted lists keeps the whole graph invariant: flags, sorted lists, canonical tables, by_components and all cached edges |
| Graph.NewTableKeepsGraph | bevy-ecs/src/storage/table.rs:859-879 | registering a table for a new sorted list keeps the graph invariant |
| Graph.NewEdgesKeepGraph | bevy-ecs/src/archetype.rs:202-270 | caching exact edges keeps the graph invariant |
| Graph.FlagsOfIsExact | bevy-ecs/src/archetype.rs:355-381 | the flags of a new archetype say exactly which kinds of hooks its components have |
| ArchetypeIds.NewArchetypeKeepsIds | bevy-ecs/src/archetype.rs:841-850 | the two id ranges of a new archetype leave all archetype component ids distinct and filling 0..count |
| ArchetypeIds.IssuingKeepsIds | bevy-ecs/src/archetype.rs:771-778 | so does an id handed out singly |
| Growth.GrowingKeepsInv | bevy-ecs/src/bundle.rs:444-532 | growing the archetype graph keeps every other invariant of the world |
| Growth.NewComponentKeepsInv | bevy-ecs/src/component.rs:694-706 | registering a component, with its sparse set if it needs one, keeps every invariant and every component map |
| EdgeTargets.CachedAddEdge | bevy-ecs/src/archetype.rs:186-217 | every cached add edge names the archetype with the union of the components, Mutated iff the component was there, and added is the bundle less the archetype, in bundle order |
| EdgeTargets.NewTargetIff | bevy-ecs/src/archetype.rs:817-868 | an archetype found for a component set is new exactly if no archetype had that set |
| EdgeTargets.CachedRemoval | bevy-ecs/src/archetype.rs:230-270 | every cached remove or take edge names the archetype with the difference, or None exactly where take must refuse |
| Moves.SwappedEntityIsNotInTarget | bevy-ecs/src/bundle.rs:785-788 | the entity swapped within the old table never stands in the new archetype: that branch of insert cannot be taken |
| Moves.InsertOrderAgrees | bevy-ecs/src/bundle.rs:737-793 | writing the new location before patching the swapped entity gives the state that the invariants are proved for |
| Moves.RemoveOrderAgrees | bevy-ecs/src/world/entity_ref.rs:970-1043 | so does patching first and writing the new location last |
| Moves.SameTableMove | bevy-ecs/src/bundle.rs:690-715 | a move between archetypes that share a table keeps all indexes inverse, all rows, and every bystander |
| Moves.NewTableMoveCoherent | bevy-ecs/src/bundle.rs:728-793 | the double swap-remove of a move to another table keeps all indexes inverse |
| Moves.NewTableMoveKeepsOthers | bevy-ecs/src/bundle.rs:728-793 | and leaves every other entity in its archetype and table, over its own cells |
| Moves.NewTableMoveInitialised | bevy-ecs/src/storage/table.rs:661-685 | and leaves no uninitialised cell outside the row that was appended |
| Moves.SameShapeKeepsGraph | bevy-ecs/src/bundle.rs:659-807 | moving entities about does not touch the archetype graph |
| Writes.OverwriteFinds | bevy-ecs/src/bundle.rs:395-438 | writing a bundle without repetitions sets each of its components once, over the original map, and no other |
| Writes.WrittenAbs | bevy-ecs/src/bundle.rs:395-438 | writing cells at the place of an entity is overwriting that entity's component map |
| Effects.MoveUnobserved | bevy-ecs/src/bundle.rs:659-807 | a move to an archetype with at least the same components changes no component map of any entity |
| Effects.StatusMatchesSlots | bevy-ecs/src/bundle.rs:381-394 | the status of an exact edge is Added exactly for table slots that are uninitialised, so nothing is leaked and nothing is dropped that was never there |
| Effects.InsertEffect | bevy-ecs/src/bundle.rs:659-807 | move plus writes keeps every invariant and overrides exactly the component map of the entity |
| Removals.NextGeneration | bevy-ecs/src/identifier/masks.rs:64-74 | the next generation fits in 31 bits, is not 0 and is not the old one |
| Removals.AllocationKeepsInv | bevy-ecs/src/entity/mod.rs:589-601 | an allocated entity is not alive, stands nowhere and keeps every invariant |
| Removals.SpawnEffect | bevy-ecs/src/bundle.rs:895-924 | a fresh row plus writes keeps every invariant and adds exactly the new entity with the bundle |
| Removals.RemoveEffect | bevy-ecs/src/world/entity_ref.rs:1050-1129 | dropping sparse components plus a move keeps every invariant and subtracts exactly the bundle from the entity |
| Removals.DespawnEffect | bevy-ecs/src/world/entity_ref.rs:1211-1292 | vacating both rows and the sparse sets keeps every invariant and takes away exactly the entity |
| Inserters.InserterSurvives | bevy-ecs/src/bundle.rs:536-556 | the ids an inserter caches stay right as long as only entities move |
| Spawners.SpawnerSurvives | bevy-ecs/src/bundle.rs:837-843 | the ids a spawner caches stay right as long as only entities move |
| Removers.ArchetypeListsOnce | bevy-ecs/src/archetype.rs:448-450 | an archetype lists each of its components once |
| Triggers.FlagIsAnyHooked | bevy-ecs/src/archetype.rs:593-607 | an archetype flag is set iff some component of the archetype has a hook of that kind |
| Triggers.FlagSkipsNothing | bevy-ecs/src/world/deferred_world.rs:280-295 | the early-out on an archetype flag skips no hook |
| Triggers.RemoveTriggersExactIff | bevy-ecs/src/world/entity_ref.rs:1426-1436 | removing a bundle fires on_remove for exactly what goes away iff nothing goes away, or the entity has no such hook, or it has every hooked component of the bundle |
| Triggers.RemoveFiresForAbsentComponent | bevy-ecs/src/world/entity_ref.rs:1086-1094 | a concrete removal that fires on_remove for a component the entity does not have |
| Worlds.World.constructor | bevy-ecs/src/archetype.rs:708-729 | a new world has no entities and satisfies every invariant |
| Worlds.World.RegisterComponent | bevy-ecs/src/component.rs:685-706 | the next component id; no component map changes |
| Worlds.World.RegisterBundle | bevy-ecs/src/bundle.rs:320-357 | a bundle is accepted iff it lists no component twice, and otherwise exactly the repeated ones are named |
| Worlds.World.NewArchetypeComponentId | bevy-ecs/src/archetype.rs:771-778 | the id is new, and the ids still fill 0..count |
| Worlds.World.TableIdOrInsert | bevy-ecs/src/storage/table.rs:859-879 | one table per sorted list of components |
| Worlds.World.ArchetypeIdOrInsert | bevy-ecs/src/archetype.rs:817-868 | one archetype per pair of sorted lists; the graph only grows |
| Worlds.World.Classify | bevy-ecs/src/bundle.rs:454-473 | statuses, added components and the two lists of new components are what the archetype lacks |
| Worlds.World.AddBundleToArchetype | bevy-ecs/src/bundle.rs:444-532 | the target has the union of the components, is cached, and a cached target is returned without any change; adding never gives an archetype a second empty table |
| Worlds.World.ClassifyRemoval | bevy-ecs/src/world/entity_ref.rs:2355-2374 | the removed components by storage, or a refusal exactly if take lacks one |
| Worlds.World.SortedRemove | bevy-ecs/src/world/entity_ref.rs:2423-2436 | one pass over two sorted lists removes exactly the listed elements |
| Worlds.World.RemoveBundleFromArchetype | bevy-ecs/src/world/entity_ref.rs:2327-2421 | the target has the difference of the components; None exactly for a take that lacks one; some archetype has a second empty table afterwards iff one had before, or the archetype had table components, all of them go, and no archetype had what is left |
| Worlds.World.NewInserter | bevy-ecs/src/bundle.rs:576-652 | the inserter names the right target, in the right one of the three cases |
| Worlds.World.InsertIntoNewTable | bevy-ecs/src/bundle.rs:728-793 | the step-by-step double swap-remove arrives at the state that keeps the indexes inverse |
| Worlds.World.WriteComponents | bevy-ecs/src/bundle.rs:395-438 | exactly the cells of the bundle at that place are written; added ticks survive a replacement |
| Worlds.World.Fire | bevy-ecs/src/world/deferred_world.rs:280-340 | the hooks of the targets, in order, or none if the archetype flag is not set |
| Worlds.World.Insert | bevy-ecs/src/bundle.rs:659-828 | the entity's component map is overridden by the bundle, all others are unchanged, the returned location is the stored one, and on_add for what was absent precedes on_insert for the whole bundle |
| Worlds.World.NewSpawner | bevy-ecs/src/bundle.rs:860-883 | the spawner names the archetype with exactly the components of the bundle |
| Worlds.World.Alloc | bevy-ecs/src/entity/mod.rs:589-601 | the index freed last with its generation, or a new one of generation 1 only if none is free; the entity is not alive and no component map changes |
| Worlds.World.SpawnNonExistent | bevy-ecs/src/bundle.rs:895-945 | the entity appears with exactly the bundle, at the returned location |
| Worlds.World.Spawn | bevy-ecs/src/bundle.rs:949-956 | a new entity appears with exactly the bundle, on the index freed last or on a new one if none is free |
| Worlds.World.SpawnBatch | bevy-ecs/src/world/spawn_batch.rs:69-73 | one spawner used many times takes the steps of as many single spawns |
| Worlds.World.SpawnBundle | bevy-ecs/src/world/mod.rs:970-982 | a new entity appears with exactly the bundle, on the index freed last or on a new one if none is free |
| Worlds.World.InsertBundle | bevy-ecs/src/world/entity_ref.rs:771-779 | insertion through a freshly computed inserter |
| Worlds.World.MoveFromRemove | bevy-ecs/src/world/entity_ref.rs:970-1043 | a move to an archetype with fewer components, in both cases, keeps the indexes inverse and every bystander |
| Worlds.World.DropComponents | bevy-ecs/src/world/entity_ref.rs:1096-1112 | the entity leaves the sparse sets of the bundle, and one removal event is sent per component it had, in bundle order |
| Worlds.World.RemoveBundle | bevy-ecs/src/world/entity_ref.rs:1050-1129 | the bundle is subtracted from the entity's component map and nothing else changes |
| Worlds.World.TakeComponents | bevy-ecs/src/world/entity_ref.rs:921-939 | the values read out are the ones a lookup would have found, in bundle order |
| Worlds.World.Take | bevy-ecs/src/world/entity_ref.rs:867-957 | succeeds iff the bundle is not empty and the entity has all of it; then returns the old values and subtracts the bundle, otherwise changes nothing |
| Worlds.World.DespawnEntity | bevy-ecs/src/world/entity_ref.rs:1211-1292 | the entity disappears and nothing else changes; on_remove and one event for each of its components, in the order of its archetype; its index is the next to be handed out, one generation on |
| Worlds.World.Apply | bevy-ecs/src/world/entity_ref.rs:771-1292 | every operation, on dead entities too, takes the step the simple semantics prescribes; it splits the empty table exactly if that can be told from the world before, and moves on the generation of exactly the index it frees |
| Worlds.World.RunOps | bevy-ecs/src/world/entity_ref.rs:771-1292 | every run of operations keeps every invariant and is a run of the simple semantics |
| Histories.Live | bevy-ecs/src/world/mod.rs:125-147 | every run of registrations and operations from a new world is a history whose steps the simple semantics prescribes |
| Histories.TablesMirrorIff | bevy-ecs/src/storage/table.rs:859-879 | in every reachable world, two archetypes have the same table iff they have the same table components, exactly if no removal so far led to a new archetype that had all of its table components taken away |
| Histories.WithoutRemovalsTablesMirror | bevy-ecs/src/storage/table.rs:859-879 | so in every world that has only registered, spawned, inserted and despawned, two archetypes have the same table iff they have the same table components |
| Histories.EntitiesShareTables | bevy-ecs/src/storage/table.rs:859-879 | then two live entities stand in the same table iff they have the same table components |
| Histories.GenerationCountsFrees | bevy-ecs/src/entity/mod.rs:679-704 | in every reachable world the generation of an index is 1 plus the number of times it was freed, modulo 2^31 - 1 |
| Histories.AliveUntilFreed | bevy-ecs/src/entity/mod.rs:739-750 | an entity stays alive for as long as its index is not freed |
| Histories.HandlesRepeatIff | bevy-ecs/src/entity/mod.rs:345-352 | a handle is handed out again exactly after a multiple of 2^31 - 1 frees of its index |
| Histories.StaleHandlesStayStale | bevy-ecs/src/entity/mod.rs:739-750 | an entity that has died is not alive again before its index has been freed 2^31 - 1 times |
| Scenarios.ThirdBranch | bevy-ecs/src/bundle.rs:788-791 | a concrete world in which the entity swapped within the old table stands in another archetype over that table: the third branch of insert is taken |
| Scenarios.EmptyBundleIsNotTaken | bevy-ecs/src/world/entity_ref.rs:889-891 | a concrete take of an empty bundle, which is refused |
| Scenarios.FreedIndexComesBack | bevy-ecs/src/entity/mod.rs:589-601 | a spawn after a despawn gets the index just freed, with its next generation, and no index is made |
| Scenarios.SecondEmptyTable | bevy-ecs/src/storage/table.rs:76-80 | a concrete run after which two archetypes without table components use different tables, against the documentation of TableId::empty |
| Semantics.Conservation | bevy-ecs/src/bundle.rs:809-824 | over any run on_add fires for a component of an entity as often as it goes from absent to present, removal events are exactly the departures, on_remove fires at least as often, and arrivals less departures is presence |
| Semantics.AddedAtMostOnce | bevy-ecs/src/bundle.rs:809-824 | without removals on_add fires at most once, and exactly once if the component was new |
| Semantics.AddsBeforeInserts | bevy-ecs/src/bundle.rs:809-824 | within one insertion or spawn every on_add precedes every on_insert |
| Semantics.FiredInOrder | bevy-ecs/src/bundle.rs:926-941 | hooks of one kind fire in the order of the list they are fired for |
| Semantics.InsertTriggersCount | bevy-ecs/src/bundle.rs:809-824 | on_add fires once for each hooked component that was absent, on_insert once for each hooked component of the bundle |
| Semantics.RemovalCounts | bevy-ecs/src/world/entity_ref.rs:1426-1436 | a removal calls on_remove of a component exactly once if the component is in the bundle and hooked, the entity has a component of the bundle, and the entity has some component with such a hook, and not at all otherwise; no other hook; one event per component that goes |
| Semantics.StepIsAccounted | bevy-ecs/src/bundle.rs:809-824 | every step of every operation calls each hook once or not at all, as Calls says from the world before and after, and sends one removal event for each component that departs |
| Semantics.HooksFireAsCalled | bevy-ecs/src/bundle.rs:926-941 | over any run each hook of each component of each entity fires exactly as many times as steps call it |
| Semantics.HooksInOrder | bevy-ecs/src/world/entity_ref.rs:1426-1436 | within a step hooks of one kind follow bundle order and every on_add precedes every on_insert; those of a despawn follow its removal events |
| Semantics.EventsInOrder | bevy-ecs/src/world/entity_ref.rs:1096-1112 | the removal events of a bundle are sent in bundle order |
| Ticks.ComparisonIsTrue | bevy-ecs/src/component.rs:925-937 | comparing wrapped, clamped ticks gives the answer of a clock that never wraps, for changes that came after the run began too |
| Ticks.CheckKeeps | bevy-ecs/src/component.rs:948-959 | check_tick keeps what a stored tick stands for, and brings it within reach of the next scan |
| Ticks.ScanGapExactIff | bevy-ecs/src/change_detection.rs:12-25 | what a scan has left within the horizon is compared rightly a number of ticks later iff that is less than twice the threshold: scans may be 2N - 1 ticks apart, and no more |
| Ticks.UnscannedExactIff | bevy-ecs/src/world/mod.rs:2243-2245 | a system that scans have not reached is answered rightly about every change iff the age of its last run is below 2^32, or no change has an age between the wrapped one and the horizon |
| Ticks.MissedChange | bevy-ecs/src/world/mod.rs:2243-2245 | a concrete run in which a system out of reach of the scans misses a change made one tick ago |
| Ticks.AnswersAreTrue | bevy-ecs/src/component.rs:996-1005 | in every reachable state is_changed and is_added answer what the unwrapped clock says |
| Ticks.AnswersFollowHistory | bevy-ecs/src/component.rs:996-1005 | the same with all dates told from positions in the history: a write is dated at the beginning of the run of its writer, the last run is the last one that ended, and a change leaves the date of addition alone |
| Ticks.FirstRunSeesAll | bevy-ecs/src/system/function_system.rs:552-564 | in its first run a system is told of every cell added or changed no later than the run began, unless its age has reached MAX_CHANGE_AGE |
| Clocks.HistoryTells | bevy-ecs/src/system/function_system.rs:515-537 | the time, the last and the current run of each system, and the dates of each cell that the replayed clock shows are those that the positions of the events in the history determine |
| Ticks.UnscannedAnswers | bevy-ecs/src/component.rs:996-1005 | what is_changed answers where a scan did not reach the system |
| Ticks.NoAgeOverflows | bevy-ecs/src/change_detection.rs:12-25 | no stored age overflows, and clamped ages are the clamped true ages |
| Ticks.ChecksDoNotMatter | bevy-ecs/src/component.rs:930-932 | two runs that differ only in when ticks were checked answer alike |
| Ticks.ChangeClock.Increment | bevy-ecs/src/world/mod.rs:2063-2066 | the counter wraps to 0 after 2^32 - 1; the old value is returned |
| Ticks.ChangeClock.AddSystem | bevy-ecs/src/system/function_system.rs:552-564 | a new system is as if it had last run MAX_CHANGE_AGE ticks ago |
| Ticks.ChangeClock.BeginRun | bevy-ecs/src/system/function_system.rs:515-533 | a run is stamped with the tick it begins at |
| Ticks.ChangeClock.EndRun | bevy-ecs/src/system/function_system.rs:534-537 | the last run becomes the tick of the run |
| Ticks.ChangeClock.SetChanged | bevy-ecs/src/component.rs:1041-1043 | a write is stamped with the tick of the writer |
| Ticks.ChangeClock.CheckChangeTicks | bevy-ecs/src/world/mod.rs:2223-2248 | a check scans iff enough ticks have passed, leaves no trace in the true history, and reaches every system but those of a schedule taken out to be run |
| TypeRegistries.TypeRegistry.UpdateIndices | bevy-deps/bevy_reflect/src/type_registry.rs:225-240 | each short name maps to an id iff it was indexed once, and is ambiguous iff indexed more often |
| TypeRegistries.TypeRegistry.RegisterInternal | bevy-deps/bevy_reflect/src/type_registry.rs:203-222 | added iff the type was not registered |
| TypeRegistries.TypeRegistry.AddRegistration | bevy-deps/bevy_reflect/src/type_registry.rs:171-174 | adds that registration alone |
| TypeRegistries.TypeRegistry.OverwriteRegistration | bevy-deps/bevy_reflect/src/type_registry.rs:185-194 | replaces the registration and indexes the type once more |
| TypeRegistries.TypeRegistry.Register | bevy-deps/bevy_reflect/src/type_registry.rs:151-158 | terminates on cyclic dependencies; what is new brings its dependencies along, is reached from the type, and is stored with the type data of its own declaration; an already registered type changes nothing |
| TypeRegistries.TypeRegistry.RegisterDependencies | bevy-deps/bevy_reflect/src/tuple.rs:649-651 | all dependencies are registered, in turn with theirs, each with its own type data |
| TypeRegistries.TypeRegistry.RegisterAll | bevy-deps/bevy_reflect/src/type_registry.rs:151-158 | from an empty registry, registering roots registers exactly what they reach, each type with its own type data, and the result is closed |
| TypeRegistries.ShortNamesExact | bevy-deps/bevy_reflect/src/type_registry.rs:323-327 | without overwriting, a short name finds a type iff exactly one registered type has it, and is ambiguous iff at least two do |
| TypeRegistries.NameFindsDeclaration | bevy-deps/bevy_reflect/src/type_registry.rs:323-327 | a short name that one registered type has finds the registration with the type data that type declares |
| TypeRegistries.AmbiguousIffIndexedTwice | bevy-deps/bevy_reflect/src/type_registry.rs:225-240 | with overwriting, ambiguous iff indexed at least twice, re-registering the same type included |
| TypeRegistries.OverwritingIsAmbiguous | bevy-deps/bevy_reflect/src/type_registry.rs:185-194 | overwriting the only type of its name makes the name ambiguous and unfindable |
| TaskScope.EmptyQueueMeansDone | bevy-deps/bevy_tasks/src/task_pool.rs:383-396 | when the queue is found empty and nothing is awaited, every spawned future is done |
| TaskScope.StepKeepsInv | bevy-deps/bevy_tasks/src/task_pool.rs:383-400 | every step of every thread keeps the invariant of the scope |
| TaskScope.ReturnedScopeIsComplete | bevy-deps/bevy_tasks/src/task_pool.rs:376-400 | under any interleaving, a scope that returns has completed everything ever spawned in it, nested spawns included, with one result per spawn in push order |
| TaskScope.DirectSpawnsKeepOrder | bevy-deps/bevy_tasks/src/task_pool.rs:234-239 | if only the closure spawns, results come in spawn order |
| TaskScope.UnwoundScopeIsQuiet | bevy-deps/bevy_tasks/src/task_pool.rs:663-674 | even after a panic nothing spawned in the scope is left running when it is gone |
| ScopeRuns.ResultsFollowActions | bevy-deps/bevy_tasks/src/task_pool.rs:376-400 | told from the actions of the run alone: as many results as spawns, every spawned future has finished with a value, and result k is the value of the future whose handle was pushed k-th |
| ScopeRuns.NeverStuck | bevy-deps/bevy_tasks/src/task_pool.rs:383-396 | in every state a run can reach, some step other than a further spawn is possible until the scope is gone |
| Interning.StepKeepsCopies | bevy-ecs/src/intern.rs:143-161 | no step leaks a value twice: the second look under the write lock decides |
| Interning.SameReferenceIffEqual | bevy-ecs/src/intern.rs:64-68 | for any threads and any interleaving, two calls return the same reference iff their values are equal |
| Interning.OneCopyPerValue | bevy-ecs/src/intern.rs:143-161 | at most one copy per value is ever leaked, and what is returned is a published copy of an equal value |
| Interning.PublishedForGood | bevy-ecs/src/intern.rs:16-16 | a published reference stays published and keeps its value |
| Interning.ReturnsAnswerCalls | bevy-ecs/src/intern.rs:143-161 | as many results as returns, each for the value that the returning thread had last asked for |
| Interning.NeverStuck | bevy-ecs/src/intern.rs:143-161 | while any thread is in a call, some call can take a step: the two locks do not deadlock |
| ReflectValues.PatchingIsIdempotent | bevy-deps/bevy_reflect/src/list.rs:498-516 | a patch that succeeded succeeds again and changes nothing, for every kind of value |
| ReflectValues.ApplyingToItself | bevy-deps/bevy_reflect/src/list.rs:498-516 | applying a value to itself changes nothing |
| ReflectValues.PatchingFrames | bevy-deps/bevy_reflect/src/struct_trait.rs:437-452 | a patched struct keeps its field names, tuples and arrays keep their length, a list gets the longer length, a map the union of the keys with the old ones first |
| ReflectValues.PatchedChildren | bevy-deps/bevy_reflect/src/map.rs:604-620 | each child of the patch reaches its counterpart, the other children are kept, and unmatched children are added to lists and maps and dropped elsewhere |
| ReflectValues.PatchSucceedsIff | bevy-deps/bevy_reflect/src/array.rs:484-503 | a patch succeeds iff leaf types, kinds and array lengths agree wherever it has a counterpart |
| ReflectValues.PatchKeepsWf | bevy-deps/bevy_reflect/src/reflect.rs:271-275 | even a patch that fails half way leaves a well-formed value |
| ReflectValues.CloneIsSame | bevy-deps/bevy_reflect/src/struct_trait.rs:387-398 | a clone is the same tree |
| ReflectValues.EqualMeans | bevy-deps/bevy_reflect/src/struct_trait.rs:554-576 | Some(true) means same kind, same labels and equal children under each label, though one side only is walked through |
| ReflectValues.ReflexiveIff | bevy-deps/bevy_reflect/src/list.rs:527-544 | a value equals itself iff it contains no NaN and no leaf without PartialEq |
| ReflectValues.CloneIsEqualIff | bevy-deps/bevy_reflect/src/list.rs:527-544 | a value equals its clone iff it is comparable |
| ReflectValues.EqualIsSymmetric | bevy-deps/bevy_reflect/src/map.rs:531-552 | equality is symmetric for every kind of value |
| ReflectValues.EqualIsTransitive | bevy-deps/bevy_reflect/src/map.rs:531-552 | equality is transitive |
| ReflectMeanings.PatchesIff | bevy-deps/bevy_reflect/src/list.rs:498-516 | the outcome of a patch, said of the values alone: leaves become those of the patch at every depth, children without a counterpart are kept, lists and maps append what they lack in order; a patch that fails stops with that error at the first child that cannot take it, with what came before taken and the rest untouched; exactly one outcome fits, and it is the one computed |
| ReflectMeanings.PatchOfSameShape | bevy-deps/bevy_reflect/src/struct_trait.rs:437-452 | a patch with the same types, names, keys and lengths at every level succeeds and leaves the patch itself, up to the order of fields and keys |
| ReflectMeanings.UndecidedIff | bevy-deps/bevy_reflect/src/map.rs:531-552 | the comparison answers None iff a leaf has no PartialEq, or the first pair of children that is not equal has no answer |
| ReflectOps.ListApply | bevy-deps/bevy_reflect/src/list.rs:498-516 | the loop over a list merges by position and appends |
| ReflectOps.TupleApply | bevy-deps/bevy_reflect/src/tuple.rs:441-455 | the loop over tuples, tuple structs and equally long arrays merges by position |
| ReflectOps.StructApply | bevy-deps/bevy_reflect/src/struct_trait.rs:437-452 | the loop over a struct merges by name |
| ReflectOps.MapApply | bevy-deps/bevy_reflect/src/map.rs:604-620 | the loop over a map merges by key and inserts |
| ReflectOps.ApplyValue | bevy-deps/bevy_reflect/derive/src/impls/values.rs:96-109 | try_apply on any value, with the error and the partly patched value on failure, as the relation of PatchesIff says |
| ReflectOps.ComparePositions | bevy-deps/bevy_reflect/src/tuple.rs:467-483 | the zipped comparison loops compute reflect_partial_eq, first failure included |
| ReflectOps.CompareStructs | bevy-deps/bevy_reflect/src/struct_trait.rs:554-576 | the comparison of structs by the fields of the other side |
| ReflectOps.CompareMaps | bevy-deps/bevy_reflect/src/map.rs:531-552 | the comparison of maps by the entries of this side |
| ReflectOps.CompareValues | bevy-deps/bevy_reflect/derive/src/container_attributes.rs:473-495 | reflect_partial_eq on any value; None exactly for pairs that Undecided describes |
| DynamicContainers.DynamicMap.Get | bevy-deps/bevy_reflect/src/map.rs:280-284 | with an exact index, the hash lookup finds what a search through the entries finds |
| DynamicContainers.DynamicMap.InsertBoxed | bevy-deps/bevy_reflect/src/map.rs:329-349 | inserting updates the finite map, keeps the index exact, keeps the place of an old key and appends a new one |
| DynamicContainers.DynamicMap.Remove | bevy-deps/bevy_reflect/src/map.rs:351-357 | the removed value is returned; the index stays exact iff the key was absent or last |
| DynamicContainers.DynamicMap.CloneDynamic | bevy-deps/bevy_reflect/src/map.rs:317-327 | a clone has the same entries and the same index |
| DynamicContainers.DynamicMap.TryApply | bevy-deps/bevy_reflect/src/map.rs:604-620 | patching through the hash index is the patch of the map value |
| DynamicContainers.RemovalKeepsIndexIff | bevy-deps/bevy_reflect/src/map.rs:351-357 | shifting later entries without re-indexing keeps an index exact iff there are no later entries |
| DynamicContainers.RemoveConfuses | bevy-deps/bevy_reflect/src/map.rs:351-357 | after removing the first of three entries the second key finds the third value and the third key panics |
| DynamicContainers.DynamicStruct.Field | bevy-deps/bevy_reflect/src/struct_trait.rs:344-348 | the hash index finds what a search through the names finds |
| DynamicContainers.DynamicStruct.InsertBoxed | bevy-deps/bevy_reflect/src/struct_trait.rs:317-327 | the field has the value, all others are unchanged, a new name goes to the end, and the index stays exact |
| DynamicContainers.DynamicStruct.CloneDynamic | bevy-deps/bevy_reflect/src/struct_trait.rs:387-398 | a clone is the same struct value, with an exact index |
| DynamicContainers.DynamicStruct.TryApply | bevy-deps/bevy_reflect/src/struct_trait.rs:437-452 | patching through the hash index is the patch of the struct value |
| Labels.CollectIdents | bevy-deps/bevy_macro_utils/src/label.rs:14-34 | the worklist collects a name iff a path through nested groups of the stream ends at it |
| Labels.IdentsAreOccurrences | bevy-deps/bevy_macro_utils/src/label.rs:14-34 | an identifier is collected iff a path of positions through nested groups leads to it |
| Labels.EnsureNoCollision | bevy-deps/bevy_macro_utils/src/label.rs:12-46 | the result is the value with the fewest X appended that occurs nowhere in the stream |
| Labels.LeastCountIsUnique | bevy-deps/bevy_macro_utils/src/label.rs:40-43 | that number is determined |
| Chunking.ChunksPartition | bevy-deps/bevy_tasks/src/slice.rs:43-47 | chunks concatenate to the slice, none is empty, and all but the last are full |
| Chunking.ChunkCount | bevy-deps/bevy_tasks/src/slice.rs:43-47 | there are as many chunks as the length divided by the size, rounded up |
| Chunking.ParChunkMapIsSequential | bevy-deps/bevy_tasks/src/slice.rs:36-48 | however the work was scheduled, the scope returns what mapping the chunks in order returns |
| Chunking.ParChunkMapMut | bevy-deps/bevy_tasks/src/slice.rs:139-152 | in any order of execution each chunk of the slice ends up as the function makes it from its old content, with the results in chunk order |
| Chunking.SplatCount | bevy-deps/bevy_tasks/src/slice.rs:88-95 | the documented maximum of m chunks holds iff the slice is shorter than m or m divides its length; 2m - 1 is never exceeded |
| Chunking.SplatExceedsMaximum | bevy-deps/bevy_tasks/src/slice.rs:88-95 | seven elements on four threads make seven chunks |
| Chunking.BatchesFitIff | bevy-ecs/src/batching.rs:95-108 | batches stay within threads times batches per thread iff the upper limit does not bind |
| Chunking.BatchSizeIsLeast | bevy-ecs/src/batching.rs:95-108 | a fixed strategy returns its size; any other the least size within its limits for which the batches fit, or the upper limit if none does |

## Left out

- The bodies of hooks, observers and the deferred command queue: only which hooks fire, and in which order. Observer flags and triggers are not part of this model; hooks are fixed when a component is registered.
- `World::bootstrap`, which registers the three components of its own events: a history may begin with any registrations.
- Reserving entity ids from several threads and flushing them (`Entities::reserve_entity`, `flush`): an entity is allocated and then placed. `free` on a stale generation is refused by the callers modelled here.
- The narrowing of rows and ids to `u32`: counts are unbounded numbers here, and are taken to stay below `u32::MAX`, as the source's `expect`s demand. Generations do wrap at 31 bits.
- Pointers, unsafe cells, capacity, drop glue and memory layout. An inserter or a spawner holds ids where the source caches pointers. A table slot is initialised or not, which is what the leak and double-drop arguments need.
- Components are integers, and the types of bundles are their component ids: that the values handed over match the bundle's types is the compiler's business. Caching bundle ids and component ids by Rust type is left out.
- `insert_by_id`, `retain`, `clear`, `insert_or_spawn_batch`, resources, events, queries and schedules, which use the same operations or none of them.
- Worlds.World.SpawnBatch: the iterator's laziness is not modelled; the batch is spawned to its end, as dropping the iterator does.
- Triggers.RemoveTriggersExactIff: says which `on_remove` hooks fire, not that firing them for absent components is harmless to their bodies.
- Ticks.ComparisonIsTrue: `set_last_changed`, `bypass_change_detection` and `set_last_run` break the tick discipline on purpose and are left out; so is `last_change_tick_scope`.
- `TypeRegistry::new` with its primitive types, type data, and lookups by full type path beyond the invariant that the map from paths names registered types.
- Liveness: nothing is claimed about executors ever running a future, nor about fairness of lock acquisition, beyond the absence of deadlock (`ScopeRuns.NeverStuck`, `Interning.NeverStuck`). Wakers, thread start-up and the ticking loops of `scope` are left out; an executor is any step of any unfinished future.
- TaskScope.ReturnedScopeIsComplete: futures are spawned by the closure or by futures of the scope, as the `'scope` lifetime enforces; threads of other scopes cannot push.
- Interning.SameReferenceIffEqual: `Hash` and `Eq` of the values are taken to agree, and leaked copies to have different addresses, which does not hold for zero-sized types (the labels of `bevy-ecs` compare those by type instead).
- Reflection of enums, `represented_type`, derived structs, Debug output and serialization. Leaf values are numbers of a leaf type or NaN, so floats that differ but compare equal (0.0 and -0.0) are one value; custom hash and equality functions are left out.
- ReflectOps.MapApply: keys are hashable leaves and their hash, which includes the type, is taken to be injective; a key that cannot be hashed panics in the source.
- `array_apply` and the other panicking forms, which unwrap the fallible ones.
- Chunking.ParChunkMapMut: the exclusive borrows of the chunks are modelled by handing them out one at a time, in an order that is a parameter.
- Chunking.BatchesFitIff: an overflow of `usize` is an error, as in builds with overflow checks; a batch size of 0, possible with a fixed size of 0, is returned as in the source.
