/** What a `BundleInserter` promises, and what one use of it does to a world. */
module Inserters {
  import opened Collections
  import opened Storage
  import opened Locations
  import opened Stores
  import opened Graph
  import opened ArchetypeIds
  import opened Moves
  import opened Writes
  import opened EdgeTargets
  import opened Effects
  import opened Removals
  import opened Triggers

  datatype InsertBundleResult =
    | SameArchetype
    | NewArchetypeSameTable(newArchetype: nat)
    | NewArchetypeNewTable(newArchetype: nat, newTable: nat)

  /** `BundleInserter`, with ids in place of the cached pointers. */
  datatype BundleInserter = BundleInserter(
    bundleId: nat, addBundle: AddBundle, tableId: nat, archetypeId: nat, result: InsertBundleResult, changeTick: Tick)

  /** What the cached pointers of an inserter must point at; no insertion or spawn invalidates it. */
  ghost predicate InserterFor(s: Store, ins: BundleInserter) {
    && ins.bundleId < |s.bundles| && ins.archetypeId < |s.archetypes|
    && ins.bundleId in s.archetypes[ins.archetypeId].edges.addBundle
    && ins.addBundle == s.archetypes[ins.archetypeId].edges.addBundle[ins.bundleId]
    && ins.addBundle.archetypeId < |s.archetypes|
    && ins.tableId == s.archetypes[ins.archetypeId].tableId
    && var target := s.archetypes[ins.addBundle.archetypeId];
       ins.result
       == if ins.addBundle.archetypeId == ins.archetypeId then SameArchetype
          else if target.tableId == ins.tableId then NewArchetypeSameTable(ins.addBundle.archetypeId)
          else NewArchetypeNewTable(ins.addBundle.archetypeId, target.tableId)
  }

  lemma InserterSurvives(s: Store, t: Store, ins: BundleInserter)
    requires InserterFor(s, ins) && SameShape(s, t)
    ensures InserterFor(t, ins)
  {
    SameShapeArchetype(s, t, ins.archetypeId);
    SameShapeArchetype(s, t, ins.addBundle.archetypeId);
  }

  lemma LocationsAgree(s: Store, e: nat)
    requires Inv(s) && At(s.meta, e).Some?
    ensures At(s.meta, e).value.archetypeId < |s.archetypes|
    ensures At(s.meta, e).value.tableId == s.archetypes[At(s.meta, e).value.archetypeId].tableId
  {
    hide GraphInv, DataInv, TableSide;
  }

  lemma InsertTargetTable(s: Store, ins: BundleInserter)
    requires Inv(s) && InserterFor(s, ins)
    ensures s.archetypes[ins.addBundle.archetypeId].tableId < |s.tables|
  {
    hide GraphInv, Coherent, DataInv;
    InvParts(s);
    GraphColumns(s, ins.addBundle.archetypeId, 0);
  }

  lemma InserterEdge(s: Store, ins: BundleInserter)
    requires Inv(s) && InserterFor(s, ins)
    ensures ins.bundleId < |s.bundles| && ins.archetypeId < |s.archetypes| && ins.addBundle.archetypeId < |s.archetypes|
    ensures AddEdgeExact(s.archetypes, ins.archetypeId, s.bundles[ins.bundleId], ins.addBundle)
    ensures NoDuplicates(s.bundles[ins.bundleId])
    ensures forall k :: 0 <= k < |s.bundles[ins.bundleId]| ==> s.bundles[ins.bundleId][k] < |s.components|
  {
    hide GraphInv, AddEdgeExact;
    InvParts(s);
    CachedAddEdge(s, ins.archetypeId, ins.bundleId);
    BundleIsWf(s, ins.bundleId);
  }

  lemma InsertMoved(s: Store, t: Store, entity: Entity, ins: BundleInserter, location: EntityLocation)
    requires Inv(s) && InserterFor(s, ins)
    requires EntitiesGet(s.meta, entity) == Some(location) && location.archetypeId == ins.archetypeId
    requires MovedTo(s, t, entity.index, ins.addBundle.archetypeId)
    ensures var m := At(t.meta, entity.index).value;
            var bundle := s.bundles[ins.bundleId];
            var place := Place(entity, m.tableId, m.tableRow);
            && entity == EntityAt(s, entity.index)
            && t.components == s.components && t.bundles == s.bundles
            && NoDuplicates(bundle) && |ins.addBundle.bundleStatus| == |bundle|
            && PlaceOk(t.tables, t.sparseSets, place)
            && BundleStored(t.components, t.tables[m.tableId], t.sparseSets, bundle)
            && forall k :: 0 <= k < |bundle| && t.components[bundle[k]].storage == InTable ==>
                 (ins.addBundle.bundleStatus[k] == Added
                  <==> t.tables[m.tableId].columns[bundle[k]][m.tableRow].Uninit?)
  {
    InserterEdge(s, ins);
    hide GraphInv, Coherent, NoDuplicates;
    PlaceIsOk(s, t, entity.index, ins.addBundle.archetypeId);
    hide DataInv, PlaceOk;
    StatusMatchesSlots(s, t, entity.index, ins.archetypeId, ins.addBundle.archetypeId, s.bundles[ins.bundleId],
                       ins.addBundle);
    assert t.components == s.components && t.bundles == s.bundles by {
      SameShapeComponents(s, t);
    }
    hide Inv, RowCarried, OthersKept, InitialisedExcept, SameShape, BundleStored;
  }

  /** What `insert` does to a world, hooks aside. */
  ghost predicate InsertedBy(s: Store, u: Store, ins: BundleInserter, entity: Entity, values: seq<Value>,
                             newLocation: EntityLocation)
  {
    && InserterFor(s, ins) && InserterFor(u, ins) && SameShape(s, u)
    && EntitiesGet(u.meta, entity) == Some(newLocation)
    && |s.bundles[ins.bundleId]| == |values|
    && entity in Abs(s)
    && Abs(u) == Abs(s)[entity := Overwrite(Abs(s)[entity], s.bundles[ins.bundleId], values, ins.changeTick)]
    && (EmptyTableSplit(u.archetypes) <==> EmptyTableSplit(s.archetypes))
    && NoneFreed(s.meta, u.meta)
  }

  lemma InsertDone(s: Store, t: Store, u: Store, entity: Entity, ins: BundleInserter, values: seq<Value>,
                   newLocation: EntityLocation)
    requires Inv(s) && InserterFor(s, ins)
    requires EntitiesGet(s.meta, entity).Some? && EntitiesGet(s.meta, entity).value.archetypeId == ins.archetypeId
    requires MovedTo(s, t, entity.index, ins.addBundle.archetypeId)
    requires At(t.meta, entity.index) == Some(newLocation)
    requires Written(t, u, Place(entity, newLocation.tableId, newLocation.tableRow), s.bundles[ins.bundleId], values,
                     ins.changeTick)
    ensures Inv(u) && SameComponents(s.archetypes, u.archetypes)
    ensures InsertedBy(s, u, ins, entity, values, newLocation)
  {
    assert At(t.meta, entity.index).Some?;
    hide Inv, Abs, MovedTo, Written, SameShape, SameComponents, Overwrite;
    InserterEdge(s, ins);
    var b := ins.addBundle.archetypeId;
    var p := Place(entity, At(t.meta, entity.index).value.tableId, At(t.meta, entity.index).value.tableRow);
    assert entity == EntityAt(s, entity.index);
    InsertEffect(s, t, u, entity.index, ins.archetypeId, b, s.bundles[ins.bundleId], values, ins.changeTick);
    InsertSettles(s, t, u, entity.index, b, p, s.bundles[ins.bundleId], values, ins.changeTick);
    InserterSurvives(s, u, ins);
    SameShapeSplit(s, u);
    assert u.meta == t.meta by {
      WrittenKeepsMeta(t, u, p, s.bundles[ins.bundleId], values, ins.changeTick);
    }
    MovingFreesNone(s, t, entity.index, b);
  }

  /** After the writes the entity is still where the move put it, and the graph has the same shape. */
  lemma InsertSettles(s: Store, t: Store, u: Store, e: nat, b: nat, p: Place, bundle: seq<ComponentId>,
                      values: seq<Value>, tick: Tick)
    requires MovedTo(s, t, e, b)
    requires Written(t, u, p, bundle, values, tick)
    ensures SameShape(s, u) && SameComponents(s.archetypes, u.archetypes)
    ensures u.meta == t.meta && u.meta[e].generation == s.meta[e].generation
  {
    WrittenShape(t, u, p, bundle, values, tick);
    SameShapeIsTransitive(s, t, u);
    hide Written, RowCarried, OthersKept, InitialisedExcept;
    forall a | 0 <= a < |s.archetypes|
      ensures u.archetypes[a].components == s.archetypes[a].components
    {
      SameShapeArchetype(s, u, a);
    }
  }

  /** The flags of the target archetype let exactly the hooks through that the component maps call for. */
  lemma InsertFires(s: Store, u: Store, entity: Entity, ins: BundleInserter)
    requires Inv(s) && InserterFor(s, ins) && SameShape(s, u)
    requires AddEdgeExact(s.archetypes, ins.archetypeId, s.bundles[ins.bundleId], ins.addBundle)
    requires EntitiesGet(s.meta, entity).Some? && EntitiesGet(s.meta, entity).value.archetypeId == ins.archetypeId
    ensures var target := ins.addBundle.archetypeId;
            var bundle := s.bundles[ins.bundleId];
            && entity in Abs(s)
            && target < |u.archetypes|
            && (forall k :: 0 <= k < |ins.addBundle.added| ==> ins.addBundle.added[k] < |u.components|)
            && ins.addBundle.added == Without(bundle, Abs(s)[entity].Keys)
            && (!Flag(u.archetypes[target].flags, OnAdd) ==>
                  Fired(u.components, OnAdd, entity, ins.addBundle.added) == [])
            && (!Flag(u.archetypes[target].flags, OnInsert) ==> Fired(u.components, OnInsert, entity, bundle) == [])
  {
    var target := ins.addBundle.archetypeId;
    var bundle := s.bundles[ins.bundleId];
    InAlive(s.meta, entity);
    ComponentsOfMatchArchetype(s, entity);
    InserterEdge(s, ins);
    hide Inv, ComponentsOf;
    SameShapeArchetype(s, u, target);
    SameShapeComponents(s, u);
    hide SameShape;
    ArchetypeFlags(s, target);
    FlagSkipsNothing(s.components, s.archetypes[target], OnAdd, entity, ins.addBundle.added);
    FlagSkipsNothing(s.components, s.archetypes[target], OnInsert, entity, bundle);
    forall k | 0 <= k < |ins.addBundle.added|
      ensures ins.addBundle.added[k] < |u.components|
    {
      assert ins.addBundle.added[k] in bundle;
    }
  }

  lemma ArchetypeFlags(s: Store, a: nat)
    requires Inv(s) && a < |s.archetypes|
    ensures ComponentsRegistered(s.components, s.archetypes[a]) && FlagsExact(s.components, s.archetypes[a])
  {
    InvParts(s);
    hide Inv, Coherent, DataInv, BundlesWf, TablesCanonical, ByComponentsExact, EdgesExact;
    assert ArchetypeWf(s.components, s.tables, s.tableIds, s.archetypes[a]);
  }
}
