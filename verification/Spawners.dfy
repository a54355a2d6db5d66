/** What a `BundleSpawner` promises, and what one use of it does to a world. */
module Spawners {
  import opened Collections
  import opened Storage
  import opened Locations
  import opened Stores
  import opened Graph
  import opened ArchetypeIds
  import opened Moves
  import opened Writes
  import opened EdgeTargets
  import opened Effects
  import opened Removals
  import opened Triggers
  import opened Inserters

  /** `BundleSpawner`, with ids in place of the cached pointers. */
  datatype BundleSpawner = BundleSpawner(bundleId: nat, tableId: nat, archetypeId: nat, changeTick: Tick)

  ghost predicate SpawnerFor(s: Store, sp: BundleSpawner) {
    && sp.bundleId < |s.bundles| && sp.archetypeId < |s.archetypes|
    && sp.tableId == s.archetypes[sp.archetypeId].tableId
    && s.archetypes[sp.archetypeId].ComponentSet() == ToSet(s.bundles[sp.bundleId])
  }

  lemma SpawnerSurvives(s: Store, t: Store, sp: BundleSpawner)
    requires SpawnerFor(s, sp) && SameShape(s, t)
    ensures SpawnerFor(t, sp)
  {
    SameShapeArchetype(s, t, sp.archetypeId);
  }

  // ---- spawning -----------------------------------------------------------------------------

  /** The entity has been handed out by `alloc` and stands nowhere yet. */
  ghost predicate EntityAllocated(s: Store, e: Entity) {
    && e.index < |s.meta| && s.meta[e.index] == EntityMeta(e.generation, None)
    && e.index !in s.pending
  }

  /** What `spawn_non_existent` does to a world, hooks aside. */
  ghost predicate SpawnedBy(s: Store, u: Store, sp: BundleSpawner, entity: Entity, values: seq<Value>,
                            location: EntityLocation)
  {
    && SpawnerFor(s, sp) && SpawnerFor(u, sp) && SameShape(s, u)
    && EntitiesGet(u.meta, entity) == Some(location)
    && |s.bundles[sp.bundleId]| == |values|
    && Abs(u) == Abs(s)[entity := Overwrite(map[], s.bundles[sp.bundleId], values, sp.changeTick)]
    && (EmptyTableSplit(u.archetypes) <==> EmptyTableSplit(s.archetypes))
    && NoneFreed(s.meta, u.meta) && |u.meta| == |s.meta|
  }

  /** Adding a bundle to the empty archetype gives the archetype with exactly its components. */
  lemma SpawnTarget(s: Store, bundleId: nat)
    requires Inv(s)
    requires 0 < |s.archetypes| && bundleId in s.archetypes[0].edges.addBundle
    ensures bundleId < |s.bundles|
    ensures var b := s.archetypes[0].edges.addBundle[bundleId].archetypeId;
            b < |s.archetypes| && s.archetypes[b].ComponentSet() == ToSet(s.bundles[bundleId])
  {
    InvParts(s);
    CachedAddEdge(s, 0, bundleId);
    hide Inv, Coherent, DataInv, BundlesWf, TablesCanonical, ByComponentsExact, EdgesExact, ArchetypeWf;
    assert s.archetypes[0].ComponentSet() == {};
  }

  /** The fresh row in which a spawned entity will stand; it is uninitialised throughout. */
  ghost predicate SpawnRoom(s: Store, tables: seq<Table>, sp: BundleSpawner, entity: Entity) {
    && sp.bundleId < |s.bundles| && sp.archetypeId < |s.archetypes| && sp.tableId < |s.tables| == |tables|
    && entity.index < |s.meta| && TablesWf(s.tables)
    && s.archetypes[sp.archetypeId].tableId == sp.tableId
    && tables == s.tables[sp.tableId := s.tables[sp.tableId].Allocate(entity)]
    && var row := |s.tables[sp.tableId].entities|;
       var bundle := s.bundles[sp.bundleId];
       && NoDuplicates(bundle)
       && PlaceOk(tables, s.sparseSets, Place(entity, sp.tableId, row))
       && BundleStored(s.components, tables[sp.tableId], s.sparseSets, bundle)
       && forall k :: 0 <= k < |bundle| && s.components[bundle[k]].storage == InTable ==>
            tables[sp.tableId].columns[bundle[k]][row].Uninit?
  }

  lemma SpawnPlace(s: Store, sp: BundleSpawner, entity: Entity)
    requires Inv(s) && SpawnerFor(s, sp) && EntityAllocated(s, entity)
    ensures sp.tableId < |s.tables| && s.tables[sp.tableId].Wf()
    ensures SpawnRoom(s, s.tables[sp.tableId := s.tables[sp.tableId].Allocate(entity)], sp, entity)
  {
    hide GraphInv, Coherent, DataInv, PlaceOk, NoDuplicates, Archetype.ComponentSet;
    InvParts(s);
    InvTables(s);
    GraphColumns(s, sp.archetypeId, 0);
    BundleIsWf(s, sp.bundleId);
    SpawnPlaceOk(s, sp, entity);
    var bundle := s.bundles[sp.bundleId];
    var after := s.tables[sp.tableId].Allocate(entity);
    forall k | 0 <= k < |bundle|
      ensures s.components[bundle[k]].storage == InTable ==>
                && bundle[k] in after.columns && |s.tables[sp.tableId].entities| < |after.columns[bundle[k]]|
                && after.columns[bundle[k]][|s.tables[sp.tableId].entities|].Uninit?
      ensures s.components[bundle[k]].storage == InSparseSet ==> bundle[k] in s.sparseSets
    {
      SpawnSlot(s, sp, bundle[k]);
      if s.components[bundle[k]].storage == InTable {
        NewSlotIsEmpty(s.tables[sp.tableId], entity, bundle[k]);
      }
    }
  }

  lemma NewSlotIsEmpty(table: Table, entity: Entity, c: ComponentId)
    requires table.Wf() && c in table.columns
    ensures var after := table.Allocate(entity);
            c in after.columns && |table.entities| < |after.columns[c]| && after.columns[c][|table.entities|].Uninit?
  {
  }

  lemma SpawnSlot(s: Store, sp: BundleSpawner, c: ComponentId)
    requires GraphInv(s) && DataInv(s) && SpawnerFor(s, sp)
    requires c in s.bundles[sp.bundleId] && c < |s.components|
    ensures sp.tableId < |s.tables|
    ensures s.components[c].storage == InTable ==> c in s.tables[sp.tableId].columns
    ensures s.components[c].storage == InSparseSet ==> c in s.sparseSets
  {
    hide GraphInv, DataInv;
    assert c in ToSet(s.bundles[sp.bundleId]);
    GraphColumns(s, sp.archetypeId, c);
    SparseSetExists(s, c);
  }

  lemma SpawnPlaceOk(s: Store, sp: BundleSpawner, entity: Entity)
    requires DataInv(s) && EntityAllocated(s, entity) && sp.tableId < |s.tables|
    requires s.tables[sp.tableId].Wf()
    ensures PlaceOk(s.tables[sp.tableId := s.tables[sp.tableId].Allocate(entity)], s.sparseSets,
                    Place(entity, sp.tableId, |s.tables[sp.tableId].entities|))
  {
    hide InitialisedExcept, AllocatorWf;
    forall c | c in s.sparseSets
      ensures s.sparseSets[c].Wf()
      ensures entity.index in s.sparseSets[c].sparse ==> s.sparseSets[c].Owner(entity.index) == Some(entity)
    {
      assert SetSide(s.archetypes, s.meta, c, s.sparseSets[c], {});
    }
  }

  lemma WrittenUnderAnyMeta(t: Store, u: Store, meta: seq<EntityMeta>, p: Place, bundle: seq<ComponentId>,
                            values: seq<Value>, tick: Tick)
    requires Written(t, u, p, bundle, values, tick)
    ensures Written(t.(meta := meta), u.(meta := meta), p, bundle, values, tick)
  {
    hide TableWritten, SetsWritten;
  }

  lemma SpawnDone(s: Store, t: Store, u: Store, sp: BundleSpawner, entity: Entity, values: seq<Value>,
                  location: EntityLocation)
    requires Inv(s) && SpawnerFor(s, sp) && EntityAllocated(s, entity) && SpawnRoom(s, t.tables, sp, entity)
    requires var row := |s.tables[sp.tableId].entities|;
             && t == s.(archetypes := ArchetypeWithEntity(s.archetypes, sp.archetypeId, entity, row),
                        tables := t.tables)
             && location == EntityLocation(sp.archetypeId, |s.archetypes[sp.archetypeId].entities|, sp.tableId, row)
             && Written(t, u, Place(entity, sp.tableId, row), s.bundles[sp.bundleId], values, sp.changeTick)
    ensures var v := u.(meta := Relocate(s.meta, entity.index, location));
            && Inv(v) && SpawnedBy(s, v, sp, entity, values, location)
            && SameComponents(s.archetypes, v.archetypes)
  {
    hide Inv, Abs, Written, SameShape, Overwrite, PlaceOk, BundleStored, NoDuplicates, TablesWf;
    var placed := Placed(s, entity.index, sp.archetypeId);
    var meta := Relocate(s.meta, entity.index, location);
    var v := u.(meta := meta);
    var p := Place(entity, sp.tableId, |s.tables[sp.tableId].entities|);
    assert entity == EntityAt(s, entity.index);
    assert t.(meta := meta) == placed;
    WrittenUnderAnyMeta(t, u, meta, p, s.bundles[sp.bundleId], values, sp.changeTick);
    hide Placed;
    SpawnEffect(s, v, entity.index, sp.archetypeId, s.bundles[sp.bundleId], values, sp.changeTick);
    SpawnShape(s, v, entity.index, sp.archetypeId, p, s.bundles[sp.bundleId], values, sp.changeTick);
    SpawnerSurvives(s, v, sp);
    SameShapeSplit(s, v);
    PlacingFreesNone(s.meta, entity.index, location);
  }

  lemma PlacingFreesNone(meta: seq<EntityMeta>, e: nat, location: EntityLocation)
    requires e < |meta|
    ensures NoneFreed(meta, Relocate(meta, e, location))
  {
  }

  lemma SpawnShape(s: Store, v: Store, e: nat, b: nat, p: Place, bundle: seq<ComponentId>, values: seq<Value>,
                   tick: Tick)
    requires Inv(s)
    requires e < |s.meta| && s.meta[e].location.None?
    requires b < |s.archetypes| && s.archetypes[b].tableId < |s.tables| && TablesWf(s.tables)
    requires Written(Placed(s, e, b), v, p, bundle, values, tick)
    ensures SameShape(s, v) && SameComponents(s.archetypes, v.archetypes)
    ensures v.meta == Placed(s, e, b).meta
  {
    InvParts(s);
    hide Inv, GraphInv, DataInv, ArchetypeSide, TableSide;
    PlacingIsCoherent(s, e, b);
    WrittenShape(Placed(s, e, b), v, p, bundle, values, tick);
    SameShapeIsTransitive(s, Placed(s, e, b), v);
    hide Placed;
    forall a | 0 <= a < |s.archetypes|
      ensures v.archetypes[a].components == s.archetypes[a].components
    {
      SameShapeArchetype(s, v, a);
    }
  }

  lemma SpawnFires(u: Store, entity: Entity, sp: BundleSpawner)
    requires Inv(u) && SpawnerFor(u, sp)
    ensures var bundle := u.bundles[sp.bundleId];
            && sp.bundleId < |u.bundles| && sp.archetypeId < |u.archetypes|
            && (forall k :: 0 <= k < |bundle| ==> bundle[k] < |u.components|)
            && Without(bundle, {}) == bundle
            && (!Flag(u.archetypes[sp.archetypeId].flags, OnAdd) ==> Fired(u.components, OnAdd, entity, bundle) == [])
            && (!Flag(u.archetypes[sp.archetypeId].flags, OnInsert) ==>
                  Fired(u.components, OnInsert, entity, bundle) == [])
  {
    var bundle := u.bundles[sp.bundleId];
    InvParts(u);
    BundleIsWf(u, sp.bundleId);
    ArchetypeFlags(u, sp.archetypeId);
    WithoutNothing(bundle);
    hide Inv, GraphInv, Coherent, DataInv;
    FlagSkipsNothing(u.components, u.archetypes[sp.archetypeId], OnAdd, entity, bundle);
    FlagSkipsNothing(u.components, u.archetypes[sp.archetypeId], OnInsert, entity, bundle);
  }

  lemma {:induction false} WithoutNothing(s: seq<nat>)
    ensures Without(s, {}) == s
  {
    if s != [] {
      WithoutNothing(s[1..]);
      assert s == [s[0]] + s[1..];
    }
  }

  lemma HasEmptyArchetype(s: Store)
    requires Inv(s)
    ensures 0 < |s.archetypes|
  {
    hide Coherent, DataInv, BundlesWf, TablesCanonical, ByComponentsExact, EdgesExact;
  }

  lemma AllocatedSurvives(s: Store, t: Store, e: Entity)
    requires EntityAllocated(s, e) && Extends(s, t)
    ensures EntityAllocated(t, e)
  {
  }
}
