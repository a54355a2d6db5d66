/**
  The world: registration, the archetype graph, and spawning, inserting, removing and despawning. The
  nested structures of the Rust `World` are owned by value, so they are value-typed fields here; every
  method updates them step by step, in the order of the source.
 */
module Worlds {
  import opened Collections
  import opened Storage
  import opened Locations
  import opened Stores
  import opened Graph
  import opened ArchetypeIds
  import opened Moves
  import opened Writes
  import opened Growth
  import opened EdgeTargets
  import opened Effects
  import opened Removals
  import opened Triggers
  import opened Inserters
  import opened Spawners
  import opened Semantics
  import opened Removers

  class World {
    var components: seq<ComponentInfo>
    var bundles: seq<seq<ComponentId>>
    var archetypes: seq<Archetype>
    var byComponents: map<(seq<ComponentId>, seq<ComponentId>), nat>
    var archetypeComponentCount: nat
    var tables: seq<Table>
    var tableIds: map<seq<ComponentId>, nat>
    var sparseSets: map<ComponentId, SparseSet>
    var meta: seq<EntityMeta>
    var pending: seq<nat>
    /** The hooks fired so far. */
    var triggers: seq<Trigger>
    /** `removed_components`: the removal events sent so far. */
    var removed: seq<(ComponentId, Entity)>
    /** The archetype component ids handed out by `NewArchetypeComponentId`. */
    ghost var issued: set<nat>

    ghost function S(): Store
      reads this
    {
      Store(components, bundles, archetypes, byComponents, tables, tableIds, sparseSets, meta, pending)
    }

    ghost predicate Valid()
      reads this
    {
      Inv(S()) && IdsExact(archetypes, issued, archetypeComponentCount)
    }

    /** `World::new`: one empty archetype over one empty table. */
    constructor ()
      ensures S() == EmptyStore() && issued == {}
      ensures Valid() && Abs(S()) == map[]
    {
      components, bundles := [], [];
      archetypes := [EmptyArchetype()];
      byComponents := map[([], []) := 0];
      archetypeComponentCount := 0;
      tables, tableIds := [Table.Empty({})], map[];
      sparseSets := map[];
      meta, pending, triggers, removed := [], [], [], [];
      issued := {};
      new;
      hide Inv, Abs, IdsExact, EmptyArchetype;
      assert S() == EmptyStore();
      hide EmptyStore;
      EmptyWorldInv();
      NoIds(EmptyArchetype());
    }

    // ---- registration ----------------------------------------------------------------------

    /** `init_component`: registers the component and creates its sparse set if it needs one. */
    method RegisterComponent(info: ComponentInfo) returns (id: ComponentId)
      requires Valid()
      modifies this`components, this`sparseSets
      ensures Valid() && Abs(S()) == old(Abs(S()))
      ensures id == |old(components)| && components == old(components) + [info]
    {
      hide Inv, IdsExact, Abs;
      NewComponentKeepsInv(S(), info);
      id := |components|;
      components := components + [info];
      if info.storage == InSparseSet {
        sparseSets := sparseSets[id := SparseSet([], [], map[])];
      }
    }

    /** `BundleInfo::new`: refuses a bundle that lists a component twice, naming the repeated ones. */
    method RegisterBundle(ids: seq<ComponentId>) returns (r: Result<nat, seq<ComponentId>>)
      requires Valid()
      requires forall k :: 0 <= k < |ids| ==> ids[k] < |components|
      modifies this`bundles
      ensures Valid() && Abs(S()) == old(Abs(S()))
      ensures r.Ok? <==> NoDuplicates(ids)
      ensures r.Ok? ==> bundles == old(bundles) + [ids] && r.value == |old(bundles)|
      ensures r.Err? ==> bundles == old(bundles)
      ensures r.Err? ==> forall c :: c in r.error <==> exists i, j :: 0 <= i < j < |ids| && ids[i] == c && ids[j] == c
    {
      hide Inv, IdsExact, Abs;
      DistinctCount(ids);
      var deduped := ToSet(ids);
      if |deduped| != |ids| {
        var seen: set<ComponentId> := {};
        var dups: seq<ComponentId> := [];
        for k := 0 to |ids|
          invariant seen == ToSet(ids[..k])
          invariant forall c :: c in dups <==> exists i, j :: 0 <= i < j < k && ids[i] == c && ids[j] == c
        {
          if ids[k] in seen {
            dups := dups + [ids[k]];
          }
          seen := seen + {ids[k]};
          assert ids[..k + 1] == ids[..k] + [ids[k]];
        }
        return Err(dups);
      }
      NewBundleKeepsInv(S(), ids);
      r := Ok(|bundles|);
      bundles := bundles + [ids];
    }

    // ---- the archetype graph ---------------------------------------------------------------

    method NewArchetypeComponentId() returns (id: nat)
      requires Valid()
      modifies this`archetypeComponentCount, this`issued
      ensures Valid()
      ensures id !in old(issued) && issued == old(issued) + {id}
      ensures archetypeComponentCount == old(archetypeComponentCount) + 1
    {
      hide Inv, IdsExact, Abs;
      IssuingKeepsIds(archetypes, issued, archetypeComponentCount);
      id := archetypeComponentCount;
      archetypeComponentCount := archetypeComponentCount + 1;
      issued := issued + {id};
    }

    /** `Tables::get_id_or_insert`. */
    method TableIdOrInsert(ids: seq<ComponentId>) returns (t: nat)
      requires Valid()
      requires StrictlySorted(ids)
      modifies this`tables, this`tableIds
      ensures Valid()
      ensures S() == if ids in old(tableIds) then old(S()) else WithTable(old(S()), ids)
      ensures ids in tableIds && tableIds[ids] == t
      ensures Extends(old(S()), S())
    {
      hide Inv, IdsExact, Abs, GraphInv, Coherent, DataInv, Extends;
      if ids in tableIds {
        ExtendsIsReflexive(S());
        return tableIds[ids];
      }
      InvParts(S());
      NewTableKeepsGraph(S(), ids);
      GrowingKeepsInv(S(), WithTable(S(), ids));
      tables := tables + [Table.Empty(ToSet(ids))];
      t := |tables| - 1;
      tableIds := tableIds[ids := t];
    }

    /** `Archetypes::get_id_or_insert`. */
    method ArchetypeIdOrInsert(tableId: nat, tableComponents: seq<ComponentId>, sparseComponents: seq<ComponentId>)
      returns (id: nat)
      requires Valid()
      requires StoredAs(components, tableComponents, InTable) && StoredAs(components, sparseComponents, InSparseSet)
      requires StrictlySorted(tableComponents) && StrictlySorted(sparseComponents)
      requires tableId < |tables| && tables[tableId].columns.Keys == ToSet(tableComponents)
      requires CanonicalTable(tableIds, tableComponents, tableId)
      modifies this`archetypes, this`byComponents, this`archetypeComponentCount
      ensures Valid()
      ensures (tableComponents, sparseComponents) in byComponents
      ensures byComponents[(tableComponents, sparseComponents)] == id
      ensures id < |archetypes|
      ensures Extends(old(S()), S())
      ensures forall a :: 0 <= a < |old(archetypes)| ==> archetypes[a] == old(archetypes)[a]
      ensures tables == old(tables) && tableIds == old(tableIds)
      ensures |archetypes| == if id < |old(archetypes)| then |old(archetypes)| else id + 1
      ensures |archetypes| <= |old(archetypes)| + 1
      ensures EmptyTableSplit(archetypes)
              <==> old(EmptyTableSplit(archetypes))
                   || (|old(archetypes)| <= id && tableComponents == [] && tableId != 0)
    {
      hide Inv, IdsExact, Abs, GraphInv, Coherent, DataInv, Extends, EmptyTableSplit;
      var identity := (tableComponents, sparseComponents);
      InvParts(S());
      if identity in byComponents {
        id := byComponents[identity];
        ExtendsIsReflexive(S());
        KeysNameArchetypes(S(), identity);
      } else {
        id := |archetypes|;
        var start := archetypeComponentCount;
        NewComponentsRegistered(components, tableComponents, sparseComponents, start);
        ghost var next := WithArchetype(S(), tableId, tableComponents, sparseComponents, start);
        NewArchetypeKeepsGraph(S(), tableId, tableComponents, sparseComponents, start);
        NewArchetypeSplitsIff(S(), tableId, tableComponents, sparseComponents, start);
        GrowingKeepsInv(S(), next);
        var fresh_ := NewArchetype(components, id, tableId, NewComponents(tableComponents, sparseComponents, start));
        NewArchetypeKeepsIds(archetypes, fresh_, issued, start);
        archetypeComponentCount := archetypeComponentCount + |tableComponents| + |sparseComponents|;
        archetypes := archetypes + [fresh_];
        byComponents := byComponents[identity := id];
        assert S() == next;
      }
    }

    /** Writing an exact edge into the cache of archetype `a`. */
    method CacheEdges(a: nat, edges: Edges)
      requires Valid()
      requires a < |archetypes| && EdgesOfExact(archetypes, bundles, a, edges)
      modifies this`archetypes
      ensures Valid()
      ensures S() == WithEdges(old(S()), a, edges)
      ensures Extends(old(S()), S())
      ensures EmptyTableSplit(archetypes) <==> old(EmptyTableSplit(archetypes))
    {
      hide Inv, IdsExact, Abs, GraphInv, Coherent, DataInv, Extends, EdgesOfExact, EmptyTableSplit;
      SameTablesSplit(archetypes, WithEdges(S(), a, edges).archetypes);
      InvParts(S());
      NewEdgesKeepGraph(S(), a, edges);
      GrowingKeepsInv(S(), WithEdges(S(), a, edges));
      IdsSurvive(archetypes, WithEdges(S(), a, edges).archetypes, issued, archetypeComponentCount);
      archetypes := archetypes[a := archetypes[a].(edges := edges)];
    }

    /** The loop of `add_bundle_to_archetype`: which components of the bundle an archetype already has. */
    static method Classify(infos: seq<ComponentInfo>, here: set<ComponentId>, bundle: seq<ComponentId>)
      returns (bundleStatus: seq<ComponentStatus>, added: seq<ComponentId>,
               newTable: seq<ComponentId>, newSparse: seq<ComponentId>)
      requires NoDuplicates(bundle) && forall k :: 0 <= k < |bundle| ==> bundle[k] < |infos|
      ensures |bundleStatus| == |bundle|
      ensures forall j :: 0 <= j < |bundle| ==> (bundleStatus[j] == Mutated <==> bundle[j] in here)
      ensures added == Without(bundle, here)
      ensures NoDuplicates(newTable) && ToSet(newTable) == OfStorage(infos, ToSet(added), InTable)
      ensures NoDuplicates(newSparse) && ToSet(newSparse) == OfStorage(infos, ToSet(added), InSparseSet)
    {
      bundleStatus, added, newTable, newSparse := [], [], [], [];
      for k := 0 to |bundle|
        invariant |bundleStatus| == k
        invariant forall j :: 0 <= j < k ==> (bundleStatus[j] == Mutated <==> bundle[j] in here)
        invariant added == Without(bundle[..k], here)
        invariant NoDuplicates(newTable) && ToSet(newTable) == OfStorage(infos, ToSet(added), InTable)
        invariant NoDuplicates(newSparse) && ToSet(newSparse) == OfStorage(infos, ToSet(added), InSparseSet)
      {
        var c := bundle[k];
        if c in here {
          bundleStatus := bundleStatus + [Mutated];
          WithoutSnoc(bundle[..k], c, here);
          assert bundle[..k + 1] == bundle[..k] + [c];
        } else {
          AddedGrows(infos, here, bundle, k, newTable, InTable);
          AddedGrows(infos, here, bundle, k, newSparse, InSparseSet);
          bundleStatus := bundleStatus + [Added];
          added := added + [c];
          if infos[c].storage == InTable {
            newTable := newTable + [c];
          } else {
            newSparse := newSparse + [c];
          }
        }
      }
      assert bundle[..|bundle|] == bundle;
    }

    /** `BundleInfo::add_bundle_to_archetype`: the archetype reached by adding a bundle, cached in the graph. */
    method AddBundleToArchetype(bundleId: nat, archetypeId: nat) returns (target: nat)
      requires Valid()
      requires bundleId < |bundles| && archetypeId < |archetypes|
      modifies this`archetypes, this`byComponents, this`archetypeComponentCount, this`tables, this`tableIds
      ensures Valid()
      ensures Extends(old(S()), S()) && Abs(S()) == old(Abs(S()))
      ensures target < |archetypes| && archetypeId < |archetypes|
      ensures bundleId in archetypes[archetypeId].edges.addBundle
      ensures archetypes[archetypeId].edges.addBundle[bundleId].archetypeId == target
      ensures archetypes[target].ComponentSet()
              == old(archetypes)[archetypeId].ComponentSet() + ToSet(bundles[bundleId])
      ensures bundleId in old(archetypes)[archetypeId].edges.addBundle ==> S() == old(S())
      ensures |archetypes| <= |old(archetypes)| + 1
      ensures EmptyTableSplit(archetypes) <==> old(EmptyTableSplit(archetypes))
    {
      hide Inv, IdsExact, Abs, GraphInv, Coherent, DataInv, Extends, Archetype.ComponentSet, EmptyTableSplit;
      InvParts(S());
      if bundleId in archetypes[archetypeId].edges.addBundle {
        CachedAddEdge(S(), archetypeId, bundleId);
        ExtendsIsReflexive(S());
        return archetypes[archetypeId].edges.addBundle[bundleId].archetypeId;
      }
      ghost var s0 := S();
      var bundle := bundles[bundleId];
      BundleIsWf(s0, bundleId);
      var bundleStatus, added, newTable, newSparse :=
        Classify(components, archetypes[archetypeId].ComponentSet(), bundle);
      target := AddTarget(archetypeId, bundle, newTable, newSparse);
      SameComponentSets(s0, S(), archetypeId);
      InvParts(S());
      KnownEdges(S(), archetypeId);
      var edges := archetypes[archetypeId].edges;
      ghost var s1 := S();
      CacheEdges(archetypeId, edges.(addBundle := edges.addBundle[bundleId := AddBundle(target, bundleStatus, added)]));
      SameComponentSets(s1, S(), target);
      ExtendsIsTransitive(s0, s1, S());
      ExtendedAbs(s0, S());
    }

    /** The table for the table components of `archetypeId` and the new ones. */
    method AddTable(archetypeId: nat, bundle: seq<ComponentId>, newTable: seq<ComponentId>)
      returns (tableId: nat, tableComponents: seq<ComponentId>)
      requires Valid() && archetypeId < |archetypes|
      requires NoDuplicates(newTable)
      requires ToSet(newTable)
               == OfStorage(components, ToSet(Without(bundle, archetypes[archetypeId].ComponentSet())), InTable)
      modifies this`tables, this`tableIds
      ensures Valid() && Extends(old(S()), S())
      ensures tableId < |tables| && tables[tableId].columns.Keys == ToSet(tableComponents)
      ensures CanonicalTable(tableIds, tableComponents, tableId)
      ensures StrictlySorted(tableComponents) && StoredAs(components, tableComponents, InTable)
      ensures ToSet(tableComponents) == ToSet(newTable) + ToSet(TableComponents(archetypes[archetypeId]))
      ensures tableComponents == [] && tableId != 0 ==> EmptyTableSplit(archetypes)
    {
      hide Inv, IdsExact, Abs, GraphInv, Coherent, DataInv, Extends, StrictlySorted, NoDuplicates, StoredAs;
      hide CanonicalTable;
      hide EmptyTableSplit;
      ghost var s0 := S();
      InvParts(s0);
      var current := archetypes[archetypeId];
      ListsOfArchetype(s0, archetypeId);
      if newTable == [] {
        // no new table components: keep using this table
        assert ToSet(newTable) == {};
        ExtendsIsReflexive(s0);
        tableId, tableComponents := current.tableId, TableComponents(current);
        EmptyTableList(s0, archetypeId);
      } else {
        EmptyImage(newTable);
        MergeFresh(components, current.ComponentSet(), bundle, newTable, TableComponents(current), InTable);
        tableComponents := Sort(newTable + TableComponents(current));
        tableId := TableIdOrInsert(tableComponents);
        InvParts(S());
        NamedTable(S(), tableComponents);
      }
    }

    /** The archetype whose components are those of `archetypeId` and those of `bundle`. */
    method AddTarget(archetypeId: nat, bundle: seq<ComponentId>, newTable: seq<ComponentId>,
                     newSparse: seq<ComponentId>)
      returns (target: nat)
      requires Valid() && archetypeId < |archetypes|
      requires forall k :: 0 <= k < |bundle| ==> bundle[k] < |components|
      requires var added := ToSet(Without(bundle, archetypes[archetypeId].ComponentSet()));
               && NoDuplicates(newTable) && ToSet(newTable) == OfStorage(components, added, InTable)
               && NoDuplicates(newSparse) && ToSet(newSparse) == OfStorage(components, added, InSparseSet)
      modifies this`archetypes, this`byComponents, this`archetypeComponentCount, this`tables, this`tableIds
      ensures Valid()
      ensures Extends(old(S()), S())
      ensures target < |archetypes| && archetypeId < |archetypes|
      ensures archetypes[target].ComponentSet() == old(archetypes)[archetypeId].ComponentSet() + ToSet(bundle)
      ensures archetypes[archetypeId].edges == old(archetypes)[archetypeId].edges
      ensures |archetypes| <= |old(archetypes)| + 1
      ensures EmptyTableSplit(archetypes) <==> old(EmptyTableSplit(archetypes))
    {
      hide Inv, IdsExact, Abs, GraphInv, Coherent, DataInv, Extends, StrictlySorted, NoDuplicates, StoredAs;
      hide CanonicalTable;
      hide EmptyTableSplit;
      ghost var s0 := S();
      InvParts(s0);
      var current := archetypes[archetypeId];
      ghost var here := current.ComponentSet();
      if newTable == [] && newSparse == [] {
        NothingAdded(components, here, bundle);
        ExtendsIsReflexive(s0);
        return archetypeId;
      }
      assert ToSet<nat>([]) == {};
      hide Archetype.ComponentSet, OfStorage, ToSet, TableComponents, SparseComponents, CanonicalTable;
      ListsOfArchetype(s0, archetypeId);
      UnionByStorage(components, here, bundle);
      var tableId, tableComponents := AddTable(archetypeId, bundle, newTable);
      var sparseComponents: seq<ComponentId>;
      if newSparse == [] {
        sparseComponents := SparseComponents(current);
      } else {
        MergeFresh(components, here, bundle, newSparse, SparseComponents(current), InSparseSet);
        sparseComponents := Sort(newSparse + SparseComponents(current));
      }
      ghost var s1 := S();
      target := ArchetypeIdOrInsert(tableId, tableComponents, sparseComponents);
      InvParts(S());
      FoundArchetype(S(), (tableComponents, sparseComponents));
      ExtendsIsTransitive(s0, s1, S());
      assert ToSet(tableComponents) == ToSet(newTable) + ToSet(TableComponents(current));
      assert ToSet(sparseComponents) == ToSet(newSparse) + ToSet(SparseComponents(current));
    }

    /** The loop of `remove_bundle_from_archetype`; without `intersection` a missing component refuses the removal. */
    static method ClassifyRemoval(infos: seq<ComponentInfo>, here: set<ComponentId>, bundle: seq<ComponentId>,
                                  intersection: bool)
      returns (refused: bool, removedTable: seq<ComponentId>, removedSparse: seq<ComponentId>)
      requires NoDuplicates(bundle) && forall k :: 0 <= k < |bundle| ==> bundle[k] < |infos|
      ensures refused <==> !intersection && !(ToSet(bundle) <= here)
      ensures !refused ==>
                NoDuplicates(removedTable) && ToSet(removedTable) == OfStorage(infos, ToSet(bundle) * here, InTable)
      ensures !refused ==>
                NoDuplicates(removedSparse)
                  && ToSet(removedSparse) == OfStorage(infos, ToSet(bundle) * here, InSparseSet)
    {
      removedTable, removedSparse := [], [];
      for k := 0 to |bundle|
        invariant intersection || ToSet(bundle[..k]) <= here
        invariant NoDuplicates(removedTable)
                  && ToSet(removedTable) == OfStorage(infos, ToSet(bundle[..k]) * here, InTable)
        invariant NoDuplicates(removedSparse)
                  && ToSet(removedSparse) == OfStorage(infos, ToSet(bundle[..k]) * here, InSparseSet)
      {
        var c := bundle[k];
        assert ToSet(bundle[..k + 1]) == ToSet(bundle[..k]) + {c} by {
          assert bundle[..k + 1] == bundle[..k] + [c];
        }
        if c in here {
          RemovedGrows(infos, here, bundle, k, removedTable, InTable);
          RemovedGrows(infos, here, bundle, k, removedSparse, InSparseSet);
          if infos[c].storage == InTable {
            removedTable := removedTable + [c];
          } else {
            removedSparse := removedSparse + [c];
          }
        } else if !intersection {
          assert c in ToSet(bundle);
          return true, [], [];
        }
      }
      assert bundle[..|bundle|] == bundle;
      refused := false;
    }

    /** `sorted_remove`: one pass over both sorted lists. */
    static method SortedRemove(source: seq<nat>, remove: seq<nat>) returns (kept: seq<nat>)
      requires StrictlySorted(source) && StrictlySorted(remove)
      ensures kept == Without(source, ToSet(remove))
    {
      kept := [];
      var next := 0;
      for k := 0 to |source|
        invariant 0 <= next <= |remove|
        invariant forall j :: 0 <= j < next && k < |source| ==> remove[j] < source[k]
        invariant kept == Without(source[..k], ToSet(remove))
      {
        while next < |remove| && source[k] > remove[next]
          invariant 0 <= next <= |remove|
          invariant forall j :: 0 <= j < next ==> remove[j] < source[k]
        {
          next := next + 1;
        }
        assert source[k] in ToSet(remove) <==> next < |remove| && remove[next] == source[k];
        assert source[..k + 1] == source[..k] + [source[k]];
        WithoutSnoc(source[..k], source[k], ToSet(remove));
        if !(next < |remove|) || source[k] != remove[next] {
          kept := kept + [source[k]];
        }
      }
      assert source[..|source|] == source;
    }

    /** The table for the table components of `archetypeId` less the removed ones. */
    method RemoveTable(archetypeId: nat, bundle: seq<ComponentId>, removedTable: seq<ComponentId>)
      returns (tableId: nat, tableComponents: seq<ComponentId>)
      requires Valid() && archetypeId < |archetypes|
      requires NoDuplicates(removedTable)
      requires ToSet(removedTable)
               == OfStorage(components, ToSet(bundle) * archetypes[archetypeId].ComponentSet(), InTable)
      modifies this`tables, this`tableIds
      ensures Valid() && Extends(old(S()), S())
      ensures tableId < |tables| && tables[tableId].columns.Keys == ToSet(tableComponents)
      ensures CanonicalTable(tableIds, tableComponents, tableId)
      ensures StrictlySorted(tableComponents) && StoredAs(components, tableComponents, InTable)
      ensures ToSet(tableComponents)
              == OfStorage(components, archetypes[archetypeId].ComponentSet(), InTable) - ToSet(bundle)
      ensures if removedTable == [] then tableComponents == [] && tableId != 0 ==> EmptyTableSplit(archetypes)
              else tableId != 0
    {
      hide Inv, IdsExact, Abs, GraphInv, Coherent, DataInv, Extends, NoDuplicates, CanonicalTable, EmptyTableSplit;
      ghost var s0 := S();
      InvParts(s0);
      var current := archetypes[archetypeId];
      ListsOfArchetype(s0, archetypeId);
      LessRemoved(components, current.ComponentSet(), bundle, TableComponents(current), removedTable, InTable);
      hide StrictlySorted, StoredAs, ToSet, OfStorage, TableComponents, SparseComponents, Archetype.ComponentSet;
      tableComponents := SortedRemove(TableComponents(current), Sort(removedTable));
      if removedTable == [] {
        ExtendsIsReflexive(s0);
        tableId := current.tableId;
        EmptyTableList(s0, archetypeId);
      } else {
        tableId := TableIdOrInsert(tableComponents);
        InvParts(S());
        NamedTable(S(), tableComponents);
      }
    }

    /** The archetype whose components are those of `archetypeId` outside `bundle`. */
    method RemoveTarget(archetypeId: nat, bundle: seq<ComponentId>, removedTable: seq<ComponentId>,
                        removedSparse: seq<ComponentId>)
      returns (target: nat)
      requires Valid() && archetypeId < |archetypes|
      requires var gone := ToSet(bundle) * archetypes[archetypeId].ComponentSet();
               && NoDuplicates(removedTable) && ToSet(removedTable) == OfStorage(components, gone, InTable)
               && NoDuplicates(removedSparse) && ToSet(removedSparse) == OfStorage(components, gone, InSparseSet)
      modifies this`archetypes, this`byComponents, this`archetypeComponentCount, this`tables, this`tableIds
      ensures Valid()
      ensures Extends(old(S()), S())
      ensures target < |archetypes| && archetypeId < |archetypes|
      ensures archetypes[target].ComponentSet() == old(archetypes)[archetypeId].ComponentSet() - ToSet(bundle)
      ensures archetypes[archetypeId].edges == old(archetypes)[archetypeId].edges
      ensures var left := OfStorage(components, old(archetypes)[archetypeId].ComponentSet(), InTable) - ToSet(bundle);
              EmptyTableSplit(archetypes)
              <==> old(EmptyTableSplit(archetypes)) || (|old(archetypes)| <= target && removedTable != [] && left == {})
    {
      hide Inv, IdsExact, Abs, GraphInv, Coherent, DataInv, Extends, NoDuplicates, CanonicalTable, EmptyTableSplit;
      ghost var s0 := S();
      InvParts(s0);
      var current := archetypes[archetypeId];
      ListsOfArchetype(s0, archetypeId);
      hide StrictlySorted;
      LessRemoved(components, current.ComponentSet(), bundle, SparseComponents(current), removedSparse, InSparseSet);
      DifferenceByStorage(components, current.ComponentSet(), ToSet(bundle));
      var tableId, tableComponents := RemoveTable(archetypeId, bundle, removedTable);
      var sparseComponents := SortedRemove(SparseComponents(current), Sort(removedSparse));
      hide StoredAs, Archetype.ComponentSet, OfStorage, ToSet, TableComponents, SparseComponents;
      ghost var s1 := S();
      target := ArchetypeIdOrInsert(tableId, tableComponents, sparseComponents);
      InvParts(S());
      FoundArchetype(S(), (tableComponents, sparseComponents));
      ExtendsIsTransitive(s0, s1, S());
      EmptyImage(tableComponents);
    }

    /** `insert_remove_bundle` or `insert_take_bundle`. */
    method CacheRemoval(archetypeId: nat, bundleId: nat, intersection: bool, target: Option<nat>)
      requires Valid()
      requires bundleId < |bundles| && archetypeId < |archetypes|
      requires if intersection then RemoveEdgeExact(archetypes, archetypeId, bundles[bundleId], target)
               else TakeEdgeExact(archetypes, archetypeId, bundles[bundleId], target)
      modifies this`archetypes
      ensures Valid() && Extends(old(S()), S()) && |archetypes| == |old(archetypes)|
      ensures EmptyTableSplit(archetypes) <==> old(EmptyTableSplit(archetypes))
    {
      hide Inv, IdsExact, Abs, GraphInv, Coherent, DataInv, Extends, RemoveEdgeExact, TakeEdgeExact, AddEdgeExact;
      hide EmptyTableSplit;
      InvParts(S());
      KnownEdges(S(), archetypeId);
      var edges := archetypes[archetypeId].edges;
      if intersection {
        CacheEdges(archetypeId, edges.(removeBundle := edges.removeBundle[bundleId := target]));
      } else {
        CacheEdges(archetypeId, edges.(takeBundle := edges.takeBundle[bundleId := target]));
      }
    }

    /**
      `remove_bundle_from_archetype`: the archetype reached by removing a bundle, cached in the graph.
      With `intersection` components the archetype lacks are ignored (`remove`), without it they refuse
      the removal (`take`).
     */
    method RemoveBundleFromArchetype(archetypeId: nat, bundleId: nat, intersection: bool) returns (target: Option<nat>)
      requires Valid()
      requires bundleId < |bundles| && archetypeId < |archetypes|
      modifies this`archetypes, this`byComponents, this`archetypeComponentCount, this`tables, this`tableIds
      ensures Valid()
      ensures Extends(old(S()), S()) && Abs(S()) == old(Abs(S()))
      ensures target.None?
              <==> !intersection && !(ToSet(bundles[bundleId]) <= old(archetypes)[archetypeId].ComponentSet())
      ensures target.Some? ==>
                && target.value < |archetypes|
                && archetypes[target.value].ComponentSet()
                   == old(archetypes)[archetypeId].ComponentSet() - ToSet(bundles[bundleId])
      ensures EmptyTableSplit(archetypes)
              <==> old(EmptyTableSplit(archetypes))
                   || (target.Some? && SplitsEmptyTable(old(S()), archetypeId, ToSet(bundles[bundleId])))
    {
      hide Inv, IdsExact, Abs, GraphInv, Coherent, DataInv, Extends, OfStorage, Archetype.ComponentSet, EmptyTableSplit;
      hide IsNewSet;
      ghost var s0 := S();
      InvParts(s0);
      ExtendsIsReflexive(s0);
      var edges := archetypes[archetypeId].edges;
      var cache := if intersection then edges.removeBundle else edges.takeBundle;
      if bundleId in cache {
        // storing the cached result again changes nothing
        CachedRemoval(s0, archetypeId, bundleId, intersection);
        target := cache[bundleId];
        if target.Some? {
          NewTargetIff(s0, s0, target.value);
        }
        return;
      }
      var bundle := bundles[bundleId];
      BundleIsWf(s0, bundleId);
      var refused, removedTable, removedSparse :=
        ClassifyRemoval(components, archetypes[archetypeId].ComponentSet(), bundle, intersection);
      if refused {
        CacheRemoval(archetypeId, bundleId, intersection, None);
        ExtendedAbs(s0, S());
        return None;
      }
      var to := RemoveTarget(archetypeId, bundle, removedTable, removedSparse);
      target := Some(to);
      SameComponentSets(s0, S(), archetypeId);
      ghost var s1 := S();
      InvParts(s1);
      NewTargetIff(s0, s1, to);
      EmptyImage(removedTable);
      AllOfStorageGo(components, s0.archetypes[archetypeId].ComponentSet(), ToSet(bundle), InTable);
      CacheRemoval(archetypeId, bundleId, intersection, target);
      SameComponentSets(s1, S(), to);
      ExtendsIsTransitive(s0, s1, S());
      ExtendedAbs(s0, S());
    }

    // ---- insertion -------------------------------------------------------------------------

    /** `BundleInserter::new_with_id`. */
    method NewInserter(archetypeId: nat, bundleId: nat, tick: Tick) returns (ins: BundleInserter)
      requires Valid()
      requires bundleId < |bundles| && archetypeId < |archetypes|
      modifies this`archetypes, this`byComponents, this`archetypeComponentCount, this`tables, this`tableIds
      ensures Valid() && Extends(old(S()), S()) && Abs(S()) == old(Abs(S()))
      ensures InserterFor(S(), ins)
      ensures ins.bundleId == bundleId && ins.archetypeId == archetypeId && ins.changeTick == tick
      ensures EmptyTableSplit(archetypes) <==> old(EmptyTableSplit(archetypes))
    {
      hide Inv, IdsExact, Abs, Extends, EmptyTableSplit;
      var target := AddBundleToArchetype(bundleId, archetypeId);
      var addBundle := archetypes[archetypeId].edges.addBundle[bundleId];
      var tableId := archetypes[archetypeId].tableId;
      if target == archetypeId {
        ins := BundleInserter(bundleId, addBundle, tableId, archetypeId, SameArchetype, tick);
      } else if archetypes[target].tableId == tableId {
        ins := BundleInserter(bundleId, addBundle, tableId, archetypeId, NewArchetypeSameTable(target), tick);
      } else {
        ins := BundleInserter(bundleId, addBundle, tableId, archetypeId,
                              NewArchetypeNewTable(target, archetypes[target].tableId), tick);
      }
    }

    /** Vacating an archetype row: `swap_remove`, then the metadata of the entity swapped in. */
    method VacateArchetypeRow(a: nat, row: nat) returns (tableRow: nat)
      requires a < |archetypes| && row < |archetypes[a].entities|
      requires var swapped := ArchetypeSwapped(archetypes[a], row);
               swapped.Some? ==> EntitiesGet(meta, swapped.value).Some?
      modifies this`archetypes, this`meta
      ensures archetypes == ArchetypeWithoutRow(old(archetypes), a, row)
      ensures meta == PatchArchetypeRow(old(meta), ArchetypeSwapped(old(archetypes)[a], row), row)
      ensures tableRow == old(archetypes)[a].entities[row].tableRow
    {
      var swapped := ArchetypeSwapped(archetypes[a], row);
      tableRow := archetypes[a].entities[row].tableRow;
      archetypes := archetypes[a := archetypes[a].(entities := SwapRemove(archetypes[a].entities, row))];
      match swapped {
        case None =>
        case Some(w) =>
          var sl := EntitiesGet(meta, w).value;
          meta := Relocate(meta, w.index, EntityLocation(sl.archetypeId, row, sl.tableId, sl.tableRow));
      }
    }

    method LeaveArchetypeRow(entity: Entity, location: EntityLocation) returns (tableRow: nat)
      requires Coherent(S())
      requires EntitiesGet(meta, entity) == Some(location)
      modifies this`archetypes, this`meta
      ensures S() == OutOfArchetype(old(S()), entity.index)
      ensures tableRow == location.tableRow
    {
      LeaveArchetype(archetypes, tables, meta, entity.index);
      assert InArchetypeRow(archetypes, meta, entity.index);
      hide ArchetypeSide, TableSide;
      tableRow := VacateArchetypeRow(location.archetypeId, location.archetypeRow);
    }

    /** `Archetype::allocate`. */
    method Allocate(archetypeId: nat, entity: Entity, tableRow: nat) returns (location: EntityLocation)
      requires archetypeId < |archetypes|
      modifies this`archetypes
      ensures archetypes == ArchetypeWithEntity(old(archetypes), archetypeId, entity, tableRow)
      ensures location == EntityLocation(archetypeId, |old(archetypes)[archetypeId].entities|,
                                         old(archetypes)[archetypeId].tableId, tableRow)
    {
      var a := archetypes[archetypeId];
      location := EntityLocation(archetypeId, |a.entities|, a.tableId, tableRow);
      archetypes := archetypes[archetypeId := a.(entities := a.entities + [ArchetypeEntity(entity, tableRow)])];
    }

    /** `Archetype::set_entity_table_row`. */
    method SetEntityTableRow(archetypeId: nat, row: nat, tableRow: nat)
      requires archetypeId < |archetypes| && row < |archetypes[archetypeId].entities|
      modifies this`archetypes
      ensures var a := old(archetypes)[archetypeId];
              var entities := a.entities[row := a.entities[row].(tableRow := tableRow)];
              archetypes == old(archetypes)[archetypeId := a.(entities := entities)]
    {
      var a := archetypes[archetypeId];
      var entities := a.entities[row := a.entities[row].(tableRow := tableRow)];
      archetypes := archetypes[archetypeId := a.(entities := entities)];
    }

    /** The third case of `insert`: new archetype, new table. */
    method InsertIntoNewTable(entity: Entity, location: EntityLocation, newArchetype: nat, newTable: nat)
      returns (newLocation: EntityLocation)
      requires Movable(S(), entity.index, newArchetype)
      requires EntitiesGet(meta, entity) == Some(location)
      requires archetypes[newArchetype].tableId == newTable != location.tableId
      modifies this`archetypes, this`tables, this`meta
      ensures S() == MovedNewTable(old(S()), entity.index, newArchetype)
      ensures At(meta, entity.index) == Some(newLocation)
    {
      hide Coherent, TablesWf, SameShape, OutOfTable, OutOfArchetype, TablesMoved, MovedNewTable;
      ghost var s := S();
      InsertOrderAgrees(s, entity.index, newArchetype);
      LeavingKeepsShape(s, entity.index);
      LeavingKeepsTables(s, entity.index, newArchetype);
      var tableRow := LeaveArchetypeRow(entity, location);
      var newRow := |tables[newTable].entities|;
      var swapped := tables[location.tableId].SwappedInto(tableRow);
      tables := TablesMoved(tables, location.tableId, tableRow, newTable, entity);
      newLocation := Allocate(newArchetype, entity, newRow);
      meta := Relocate(meta, entity.index, newLocation);
      ghost var entered := S();
      // whoever filled the vacated table row is told of its new row, and so is its archetype
      if swapped.Some? {
        var sl := EntitiesGet(meta, swapped.value).value;
        meta := Relocate(meta, swapped.value.index,
                         EntityLocation(sl.archetypeId, sl.archetypeRow, sl.tableId, tableRow));
        if location.archetypeId == sl.archetypeId {
          SetEntityTableRow(location.archetypeId, sl.archetypeRow, tableRow);
        } else if newArchetype == sl.archetypeId {
          // the entity swapped within the old table cannot stand in an archetype of the new one
          assert false;
        } else {
          SetEntityTableRow(sl.archetypeId, sl.archetypeRow, tableRow);
        }
      }
      assert archetypes == PatchArchetypes(entered.archetypes, entered.meta, swapped, tableRow);
      assert meta == PatchTableRow(entered.meta, swapped, tableRow);
    }

    /** One table component: `Added` initialises its slot, `Mutated` replaces what is there. */
    method WriteColumn(place: Place, c: ComponentId, status: ComponentStatus, v: Value, tick: Tick)
      requires TablesWf(tables) && place.tableId < |tables| && place.tableRow < |tables[place.tableId].entities|
      requires c in tables[place.tableId].columns
      requires status == Added <==> tables[place.tableId].columns[c][place.tableRow].Uninit?
      modifies this`tables
      ensures var table := old(tables)[place.tableId];
              tables == old(tables)[place.tableId :=
                          table.Set(c, place.tableRow,
                                    Init(NewCell(SlotOption(table.columns[c][place.tableRow]), v, tick)))]
    {
      match status {
        case Added => tables := Initialize(tables, place, c, v, tick);
        case Mutated => tables := Replace(tables, place, c, v, tick);
      }
    }

    /**
      `BundleInfo::write_components`. The statuses must be right: a table slot is `Added` exactly when it
      is uninitialised, so that nothing is leaked and nothing is dropped that was never there.
     */
    method WriteComponents(place: Place, bundle: seq<ComponentId>, status: seq<ComponentStatus>, values: seq<Value>,
                           tick: Tick)
      requires |bundle| == |status| == |values| && NoDuplicates(bundle)
      requires PlaceOk(tables, sparseSets, place)
      requires BundleStored(components, tables[place.tableId], sparseSets, bundle)
      requires forall k :: 0 <= k < |bundle| && components[bundle[k]].storage == InTable ==>
                 (status[k] == Added <==> tables[place.tableId].columns[bundle[k]][place.tableRow].Uninit?)
      modifies this`tables, this`sparseSets
      ensures Written(old(S()), S(), place, bundle, values, tick)
    {
      hide TableWritten, SetsWritten, NoDuplicates, PlaceOk, Table.Wf, SparseSet.Wf;
      ghost var t := S();
      PlaceInTables(tables, sparseSets, place);
      NothingWritten(components, tables, sparseSets, place, bundle, values, tick);
      for k := 0 to |bundle|
        modifies this`tables, this`sparseSets
        invariant TableWritten(components, t.tables, tables, place, bundle, values, tick, k)
        invariant SetsWritten(components, t.sparseSets, sparseSets, place.entity, bundle, values, tick, k)
      {
        WriteComponent(t, place, bundle, status[k], values, tick, k);
      }
    }

    /** One round of `write_components`. */
    method WriteComponent(ghost t: Store, place: Place, bundle: seq<ComponentId>, status: ComponentStatus,
                          values: seq<Value>, tick: Tick, k: nat)
      requires |bundle| == |values| && k < |bundle| && NoDuplicates(bundle)
      requires t.components == components && PlaceOk(t.tables, t.sparseSets, place)
      requires BundleStored(components, t.tables[place.tableId], t.sparseSets, bundle)
      requires components[bundle[k]].storage == InTable ==>
                 (status == Added <==> t.tables[place.tableId].columns[bundle[k]][place.tableRow].Uninit?)
      requires TableWritten(components, t.tables, tables, place, bundle, values, tick, k)
      requires SetsWritten(components, t.sparseSets, sparseSets, place.entity, bundle, values, tick, k)
      modifies this`tables, this`sparseSets
      ensures TableWritten(components, t.tables, tables, place, bundle, values, tick, k + 1)
      ensures SetsWritten(components, t.sparseSets, sparseSets, place.entity, bundle, values, tick, k + 1)
    {
      hide TableWritten, SetsWritten, NoDuplicates, Table.Wf, SparseSet.Wf;
      var c := bundle[k];
      if components[c].storage == InTable {
        TableWriteStep(components, t.tables, tables, place, bundle, values, tick, k);
        SetSkipStep(components, t.sparseSets, sparseSets, place.entity, bundle, values, tick, k);
        WriteColumn(place, c, status, values[k], tick);
      } else {
        SetWriteStep(components, t.sparseSets, sparseSets, place.entity, bundle, values, tick, k);
        TableSkipStep(components, t.tables, tables, place, bundle, values, tick, k);
        sparseSets := sparseSets[c := sparseSets[c].Insert(place.entity, values[k], tick)];
      }
    }

    /** `trigger_on_add` and its siblings: the archetype flag decides whether any hook is looked up at all. */
    method Fire(kind: TriggerKind, archetypeId: nat, entity: Entity, targets: seq<ComponentId>)
      requires archetypeId < |archetypes|
      requires forall k :: 0 <= k < |targets| ==> targets[k] < |components|
      modifies this`triggers
      ensures triggers == old(triggers)
                          + if Flag(archetypes[archetypeId].flags, kind) then Fired(components, kind, entity, targets)
                            else []
    {
      if Flag(archetypes[archetypeId].flags, kind) {
        for k := 0 to |targets|
          invariant triggers == old(triggers) + Fired(components, kind, entity, targets[..k])
        {
          assert targets[..k + 1] == targets[..k] + [targets[k]];
          FiredSnoc(components, kind, entity, targets[..k], targets[k]);
          if Flag(components[targets[k]].hooks, kind) {
            triggers := triggers + [Trigger(kind, entity, targets[k])];
          }
        }
        assert targets[..|targets|] == targets;
      }
    }

    /** The structural half of `insert`, in its three cases. */
    method MoveForInsert(ins: BundleInserter, entity: Entity, location: EntityLocation)
      returns (newLocation: EntityLocation)
      requires Inv(S()) && InserterFor(S(), ins)
      requires EntitiesGet(meta, entity) == Some(location) && location.archetypeId == ins.archetypeId
      modifies this`archetypes, this`tables, this`meta
      ensures MovedTo(old(S()), S(), entity.index, ins.addBundle.archetypeId)
      ensures At(meta, entity.index) == Some(newLocation)
    {
      ghost var s := S();
      var e := entity.index;
      hide Inv, ArchetypeSide, TableSide, InitialisedExcept;
      LocationsAgree(s, e);
      InsertTargetTable(s, ins);
      InvAllowsMoves(s);
      match ins.result {
        case SameArchetype =>
          StayingPut(s, e);
          newLocation := location;
        case NewArchetypeSameTable(newArchetype) =>
          MovingSameTable(s, e, newArchetype);
          hide Inv, MovedTo;
          var tableRow := LeaveArchetypeRow(entity, location);
          newLocation := Allocate(newArchetype, entity, tableRow);
          meta := Relocate(meta, e, newLocation);
        case NewArchetypeNewTable(newArchetype, newTable) =>
          MovingNewTable(s, e, newArchetype);
          hide Inv, MovedTo, Movable;
          newLocation := InsertIntoNewTable(entity, location, newArchetype, newTable);
      }
    }

    /** `insert` up to the hooks: move, then write. */
    method InsertComponents(ins: BundleInserter, entity: Entity, location: EntityLocation, values: seq<Value>)
      returns (newLocation: EntityLocation)
      requires ins.bundleId < |bundles| && |values| == |bundles[ins.bundleId]|
      requires EntitiesGet(meta, entity) == Some(location) && location.archetypeId == ins.archetypeId
      requires InserterFor(S(), ins) && Valid()
      modifies this`archetypes, this`tables, this`sparseSets, this`meta
      ensures Valid() && InsertedBy(old(S()), S(), ins, entity, values, newLocation)
    {
      ghost var s := S();
      hide Inv, IdsExact, MovedTo, Written, AddEdgeExact, NoDuplicates, PlaceOk, BundleStored, InserterFor, InsertedBy;
      hide SameComponents;
      InserterEdge(s, ins);
      var bundle := bundles[ins.bundleId];
      newLocation := MoveForInsert(ins, entity, location);
      ghost var t := S();
      InsertMoved(s, t, entity, ins, location);
      WriteComponents(Place(entity, newLocation.tableId, newLocation.tableRow), bundle, ins.addBundle.bundleStatus,
                      values, ins.changeTick);
      InsertDone(s, t, S(), entity, ins, values, newLocation);
      IdsSurvive(s.archetypes, archetypes, issued, archetypeComponentCount);
    }

    /** `BundleInserter::insert`. */
    method Insert(ins: BundleInserter, entity: Entity, location: EntityLocation, values: seq<Value>)
      returns (newLocation: EntityLocation)
      requires ins.bundleId < |bundles| && |values| == |bundles[ins.bundleId]|
      requires EntitiesGet(meta, entity) == Some(location) && location.archetypeId == ins.archetypeId
      requires InserterFor(S(), ins) && Valid()
      modifies this`archetypes, this`tables, this`sparseSets, this`meta, this`triggers
      ensures Valid() && InserterFor(S(), ins)
      ensures EntitiesGet(meta, entity) == Some(newLocation)
      ensures entity in old(Abs(S()))
      ensures Abs(S()) == old(Abs(S()))[entity := Overwrite(old(Abs(S()))[entity], old(bundles)[ins.bundleId], values,
                                                            ins.changeTick)]
      ensures triggers
              == old(triggers)
                + InsertTriggers(old(components), entity, old(bundles)[ins.bundleId], old(Abs(S()))[entity].Keys)
      ensures EmptyTableSplit(archetypes) <==> old(EmptyTableSplit(archetypes))
      ensures NoneFreed(old(meta), meta)
    {
      ghost var s := S();
      hide EmptyTableSplit, NoneFreed;
      hide Inv, IdsExact, Abs, Overwrite, SameShape, InserterFor, AddEdgeExact, Fired, Without;
      InserterEdge(s, ins);
      newLocation := InsertComponents(ins, entity, location, values);
      InsertFires(s, S(), entity, ins);
      Fire(OnAdd, ins.addBundle.archetypeId, entity, ins.addBundle.added);
      Fire(OnInsert, ins.addBundle.archetypeId, entity, bundles[ins.bundleId]);
    }

    // ---- spawning --------------------------------------------------------------------------

    /** `BundleSpawner::new_with_id`. */
    method NewSpawner(bundleId: nat, tick: Tick) returns (sp: BundleSpawner)
      requires Valid()
      requires bundleId < |bundles| && 0 < |archetypes|
      modifies this`archetypes, this`byComponents, this`archetypeComponentCount, this`tables, this`tableIds
      ensures Valid() && Extends(old(S()), S()) && Abs(S()) == old(Abs(S()))
      ensures SpawnerFor(S(), sp) && sp.bundleId == bundleId && sp.changeTick == tick
      ensures EmptyTableSplit(archetypes) <==> old(EmptyTableSplit(archetypes))
    {
      hide Inv, IdsExact, Abs, Extends, EmptyTableSplit;
      var target := AddBundleToArchetype(bundleId, 0);
      SpawnTarget(S(), bundleId);
      sp := BundleSpawner(bundleId, archetypes[target].tableId, target, tick);
    }

    /** `Entities::alloc`. */
    method Alloc() returns (entity: Entity)
      requires Valid()
      modifies this`meta, this`pending
      ensures Valid() && S() == Allocated(old(S())) && Abs(S()) == old(Abs(S()))
      ensures EntityAllocated(S(), entity) && entity !in Abs(S())
      ensures NoneFreed(old(meta), meta)
      ensures HandedOut(old(meta), old(pending), entity, meta, pending)
    {
      hide Inv, IdsExact, Abs, NoneFreed;
      AllocationKeepsInv(S());
      AllocationFreesNone(S());
      if pending != [] {
        var index := pending[|pending| - 1];
        pending := pending[..|pending| - 1];
        entity := Entity(index, meta[index].generation);
      } else {
        entity := Entity(|meta|, 1);
        meta := meta + [EntityMeta(1, None)];
      }
    }

    /** `spawn_non_existent` up to the hooks. */
    method SpawnComponents(sp: BundleSpawner, entity: Entity, values: seq<Value>) returns (location: EntityLocation)
      requires sp.bundleId < |bundles| && |values| == |bundles[sp.bundleId]|
      requires SpawnerFor(S(), sp) && EntityAllocated(S(), entity) && Valid()
      modifies this`archetypes, this`tables, this`sparseSets, this`meta
      ensures Valid() && SpawnedBy(old(S()), S(), sp, entity, values, location)
    {
      ghost var s := S();
      hide Inv, IdsExact, Written, NoDuplicates, PlaceOk, BundleStored, Abs, SpawnedBy, SameComponents, TablesWf;
      hide EntityAllocated, SpawnerFor;
      SpawnPlace(s, sp, entity);
      var bundle := bundles[sp.bundleId];
      var tableRow := |tables[sp.tableId].entities|;
      tables := tables[sp.tableId := tables[sp.tableId].Allocate(entity)];
      location := Allocate(sp.archetypeId, entity, tableRow);
      ghost var t := S();
      WriteComponents(Place(entity, sp.tableId, tableRow), bundle, seq(|bundle|, _ => Added), values, sp.changeTick);
      ghost var u := S();
      meta := Relocate(meta, entity.index, location);
      SpawnDone(s, t, u, sp, entity, values, location);
      IdsSurvive(s.archetypes, archetypes, issued, archetypeComponentCount);
    }

    /** `BundleSpawner::spawn_non_existent`. */
    method SpawnNonExistent(sp: BundleSpawner, entity: Entity, values: seq<Value>) returns (location: EntityLocation)
      requires sp.bundleId < |bundles| && |values| == |bundles[sp.bundleId]|
      requires SpawnerFor(S(), sp) && EntityAllocated(S(), entity) && Valid()
      modifies this`archetypes, this`tables, this`sparseSets, this`meta, this`triggers
      ensures EntitiesGet(meta, entity) == Some(location)
      ensures Valid() && SpawnerFor(S(), sp)
      ensures Abs(S()) == old(Abs(S()))[entity := Overwrite(map[], old(bundles)[sp.bundleId], values, sp.changeTick)]
      ensures triggers == old(triggers) + InsertTriggers(old(components), entity, old(bundles)[sp.bundleId], {})
      ensures EmptyTableSplit(archetypes) <==> old(EmptyTableSplit(archetypes))
      ensures NoneFreed(old(meta), meta) && |meta| == old(|meta|)
    {
      hide Inv, IdsExact, Abs, Overwrite, SameShape, SpawnerFor, Fired, Without, EmptyTableSplit, NoneFreed;
      location := SpawnComponents(sp, entity, values);
      SpawnFires(S(), entity, sp);
      Fire(OnAdd, sp.archetypeId, entity, bundles[sp.bundleId]);
      Fire(OnInsert, sp.archetypeId, entity, bundles[sp.bundleId]);
    }

    /** `BundleSpawner::spawn`. */
    method Spawn(sp: BundleSpawner, values: seq<Value>) returns (entity: Entity)
      requires sp.bundleId < |bundles| && |values| == |bundles[sp.bundleId]|
      requires SpawnerFor(S(), sp) && Valid()
      modifies this`archetypes, this`tables, this`sparseSets, this`meta, this`pending, this`triggers
      ensures Valid() && SpawnerFor(S(), sp)
      ensures entity !in old(Abs(S()))
      ensures Abs(S()) == old(Abs(S()))[entity := Overwrite(map[], old(bundles)[sp.bundleId], values, sp.changeTick)]
      ensures triggers == old(triggers) + InsertTriggers(old(components), entity, old(bundles)[sp.bundleId], {})
      ensures EmptyTableSplit(archetypes) <==> old(EmptyTableSplit(archetypes))
      ensures NoneFreed(old(meta), meta)
      ensures HandedOut(old(meta), old(pending), entity, meta, pending)
    {
      hide Inv, IdsExact, Abs, Overwrite, Fired, Without, EmptyTableSplit, NoneFreed;
      entity := Alloc();
      ghost var mid := meta;
      var location := SpawnNonExistent(sp, entity, values);
      NoneFreedIsTransitive(old(meta), mid, meta);
    }

    /** `SpawnBatchIter`: one spawner for the whole batch; its cached ids stay right from one spawn to the next. */
    method SpawnBatch(ghost r: Registry, bundleId: nat, batch: seq<seq<Value>>, tick: Tick)
      returns (spawned: seq<Entity>, ghost steps: seq<Step>)
      requires r == Registered() && bundleId < |bundles|
      requires forall k :: 0 <= k < |batch| ==> |batch[k]| == |bundles[bundleId]|
      requires Valid()
      modifies this`archetypes, this`byComponents, this`archetypeComponentCount, this`tables, this`tableIds,
               this`sparseSets, this`meta, this`pending, this`triggers
      ensures Valid()
      ensures |spawned| == |steps| == |batch|
      ensures forall k :: 0 <= k < |batch| ==>
                Spawns(old(components), old(bundles)[bundleId], batch[k], tick, spawned[k], steps[k])
      ensures AllTyped(r, SpawnOps(bundleId, batch, tick))
      ensures Run(r, SpawnOps(bundleId, batch, tick), old(Abs(S())), steps, Abs(S()))
      ensures triggers == old(triggers) + AllFired(steps)
      ensures EmptyTableSplit(archetypes) <==> old(EmptyTableSplit(archetypes))
      ensures NoneFreed(old(meta), meta)
    {
      hide Inv, IdsExact, Abs, Extends, Spawns, SpawnerFor, Run, InsertTriggers, Overwrite, AllTyped, EntityAllocated;
      hide EmptyTableSplit, NoneFreed, AllFired, SpawnOps, Fired, Without;
      NoneFreedIsReflexive(meta);
      NoSpawns(r, bundleId, tick, Abs(S()));
      HasEmptyArchetype(S());
      var sp := NewSpawner(bundleId, tick);
      spawned, steps := [], [];
      for k := 0 to |batch|
        modifies this`archetypes, this`tables, this`sparseSets, this`meta, this`pending, this`triggers
        invariant Valid() && SpawnerFor(S(), sp)
        invariant |spawned| == |steps| == k
        invariant forall j :: 0 <= j < k ==> Spawns(components, bundles[bundleId], batch[j], tick, spawned[j], steps[j])
        invariant AllTyped(r, SpawnOps(bundleId, batch[..k], tick))
        invariant Run(r, SpawnOps(bundleId, batch[..k], tick), old(Abs(S())), steps, Abs(S()))
        invariant triggers == old(triggers) + AllFired(steps)
        invariant EmptyTableSplit(archetypes) <==> old(EmptyTableSplit(archetypes))
        invariant NoneFreed(old(meta), meta)
      {
        ghost var before, mid := Abs(S()), meta;
        var entity := Spawn(sp, batch[k]);
        NoneFreedIsTransitive(old(meta), mid, meta);
        ghost var step := Step(before, Abs(S()), InsertTriggers(components, entity, bundles[bundleId], {}), []);
        SpawnedStep(components, bundles[bundleId], batch[k], tick, entity, step);
        OneMoreSpawn(r, bundleId, batch, k, tick, old(Abs(S())), steps, before, entity, step);
        spawned, steps := spawned + [entity], steps + [step];
      }
      assert batch[..|batch|] == batch;
    }

    /** `World::spawn`. */
    method SpawnBundle(bundleId: nat, values: seq<Value>, tick: Tick) returns (entity: Entity)
      requires bundleId < |bundles| && |values| == |bundles[bundleId]|
      requires Valid()
      modifies this`archetypes, this`byComponents, this`archetypeComponentCount, this`tables, this`tableIds,
               this`sparseSets, this`meta, this`pending, this`triggers
      ensures Valid()
      ensures entity !in old(Abs(S()))
      ensures Abs(S()) == old(Abs(S()))[entity := Overwrite(map[], old(bundles)[bundleId], values, tick)]
      ensures triggers == old(triggers) + InsertTriggers(old(components), entity, old(bundles)[bundleId], {})
      ensures EmptyTableSplit(archetypes) <==> old(EmptyTableSplit(archetypes))
      ensures NoneFreed(old(meta), meta)
      ensures HandedOut(old(meta), old(pending), entity, meta, pending)
    {
      hide Inv, IdsExact, Abs, Overwrite, Fired, Without, SpawnerFor, EmptyTableSplit, NoneFreed;
      entity := Alloc();
      HasEmptyArchetype(S());
      ghost var s := S();
      var sp := NewSpawner(bundleId, tick);
      AllocatedSurvives(s, S(), entity);
      assert meta == s.meta;
      var location := SpawnNonExistent(sp, entity, values);
      NoneFreedIsTransitive(old(meta), s.meta, meta);
    }

    /** `EntityWorldMut::insert`. */
    method InsertBundle(entity: Entity, location: EntityLocation, bundleId: nat, values: seq<Value>, tick: Tick)
      returns (newLocation: EntityLocation)
      requires bundleId < |bundles| && |values| == |bundles[bundleId]|
      requires EntitiesGet(meta, entity) == Some(location)
      requires Valid()
      modifies this`archetypes, this`byComponents, this`archetypeComponentCount, this`tables, this`tableIds,
               this`sparseSets, this`meta, this`triggers
      ensures Valid()
      ensures EntitiesGet(meta, entity) == Some(newLocation)
      ensures entity in old(Abs(S()))
      ensures Abs(S())
              == old(Abs(S()))[entity := Overwrite(old(Abs(S()))[entity], old(bundles)[bundleId], values, tick)]
      ensures triggers
              == old(triggers)
                + InsertTriggers(old(components), entity, old(bundles)[bundleId], old(Abs(S()))[entity].Keys)
      ensures EmptyTableSplit(archetypes) <==> old(EmptyTableSplit(archetypes))
      ensures NoneFreed(old(meta), meta)
    {
      hide Inv, IdsExact, Abs, Overwrite, Fired, Without, InserterFor, EmptyTableSplit, NoneFreed;
      LocationsAgree(S(), entity.index);
      ghost var s := S();
      var ins := NewInserter(location.archetypeId, bundleId, tick);
      assert meta == s.meta;
      newLocation := Insert(ins, entity, location, values);
    }

    // ---- removal ---------------------------------------------------------------------------

    /** `move_entity_from_remove`; whether missing columns are dropped or forgotten makes no difference here. */
    method MoveFromRemove(entity: Entity, location: EntityLocation, newArchetype: nat)
      returns (newLocation: EntityLocation)
      requires MovesAllowed(S())
      requires EntitiesGet(meta, entity) == Some(location)
      requires newArchetype < |archetypes| && archetypes[newArchetype].tableId < |tables|
      modifies this`archetypes, this`tables, this`meta
      ensures MovedTo(old(S()), S(), entity.index, newArchetype)
      ensures At(meta, entity.index) == Some(newLocation)
    {
      ghost var s := S();
      var e := entity.index;
      hide ArchetypeSide, TableSide, InitialisedExcept;
      TablesAgree(s, e);
      if location.tableId == archetypes[newArchetype].tableId {
        MovingSameTable(s, e, newArchetype);
        hide MovedTo;
        var tableRow := LeaveArchetypeRow(entity, location);
        newLocation := Allocate(newArchetype, entity, tableRow);
        meta := Relocate(meta, e, newLocation);
      } else {
        MovingNewTable(s, e, newArchetype);
        hide MovedTo, Movable;
        newLocation := MoveToSmallerTable(entity, location, newArchetype);
      }
    }

    method MoveToSmallerTable(entity: Entity, location: EntityLocation, newArchetype: nat)
      returns (newLocation: EntityLocation)
      requires Movable(S(), entity.index, newArchetype)
      requires EntitiesGet(meta, entity) == Some(location)
      requires archetypes[newArchetype].tableId != location.tableId
      modifies this`archetypes, this`tables, this`meta
      ensures S() == MovedNewTable(old(S()), entity.index, newArchetype)
      ensures At(meta, entity.index) == Some(newLocation)
    {
      hide Coherent, TablesWf, SameShape, OutOfTable, OutOfArchetype, TablesMoved, MovedNewTable;
      ghost var s := S();
      RemoveOrderAgrees(s, entity.index, newArchetype);
      LeavingKeepsShape(s, entity.index);
      LeavingKeepsTables(s, entity.index, newArchetype);
      var tableRow := LeaveArchetypeRow(entity, location);
      ghost var mid := S();
      var newTable := archetypes[newArchetype].tableId;
      var newRow := |tables[newTable].entities|;
      var swapped := tables[location.tableId].SwappedInto(tableRow);
      tables := TablesMoved(tables, location.tableId, tableRow, newTable, entity);
      newLocation := Allocate(newArchetype, entity, newRow);
      ghost var entered := archetypes;
      if swapped.Some? {
        PatchSwappedTableRow(swapped.value, tableRow);
      }
      assert archetypes == PatchArchetypes(entered, mid.meta, swapped, tableRow);
      assert meta == PatchTableRow(mid.meta, swapped, tableRow);
      meta := Relocate(meta, entity.index, newLocation);
    }

    /** Telling the entity that was swapped into a table row, and its archetype, about its new row. */
    method PatchSwappedTableRow(swapped: Entity, tableRow: nat)
      requires EntitiesGet(meta, swapped).Some?
      requires var l := EntitiesGet(meta, swapped).value;
               l.archetypeId < |archetypes| && l.archetypeRow < |archetypes[l.archetypeId].entities|
      modifies this`archetypes, this`meta
      ensures archetypes == PatchArchetypes(old(archetypes), old(meta), Some(swapped), tableRow)
      ensures meta == PatchTableRow(old(meta), Some(swapped), tableRow)
    {
      var sl := EntitiesGet(meta, swapped).value;
      meta := Relocate(meta, swapped.index, EntityLocation(sl.archetypeId, sl.archetypeRow, sl.tableId, tableRow));
      SetEntityTableRow(sl.archetypeId, sl.archetypeRow, tableRow);
    }

    /** The loop of `remove_bundle`: one event for each component present, and sparse ones leave their set. */
    method DropComponents(entity: Entity, bundle: seq<ComponentId>, here: set<ComponentId>)
      requires SetsHold(S(), entity, here)
      requires forall k :: 0 <= k < |bundle| ==> bundle[k] < |components|
      modifies this`sparseSets, this`removed
      ensures SetsRemoved(old(sparseSets), sparseSets, entity, ToSet(bundle))
      ensures removed == old(removed) + RemovedEvents(entity, Within(bundle, here))
    {
      hide SetsRemoved, SetsHold, SparseSet.Remove, SparseSet.Wf, Within, RemovedEvents, ToSet;
      ghost var s := S();
      NothingDropped(s, entity, bundle, here);
      for k := 0 to |bundle|
        modifies this`sparseSets, this`removed
        invariant SetsRemoved(s.sparseSets, sparseSets, entity, ToSet(bundle[..k]))
        invariant removed == old(removed) + RemovedEvents(entity, Within(bundle[..k], here))
      {
        var c := bundle[k];
        EventsSnoc(entity, bundle, k, here);
        if c in here {
          removed := removed + [(c, entity)];
          if components[c].storage == InSparseSet {
            DropStep(s, sparseSets, entity, here, ToSet(bundle[..k]), c);
            sparseSets := sparseSets[c := sparseSets[c].Remove(entity)];
          } else {
            KeepStep(s, sparseSets, entity, here, ToSet(bundle[..k]), c);
          }
        } else {
          KeepStep(s, sparseSets, entity, here, ToSet(bundle[..k]), c);
        }
      }
      assert bundle[..|bundle|] == bundle;
    }

    /** `EntityWorldMut::remove_bundle`. */
    method RemoveBundle(entity: Entity, location: EntityLocation, bundleId: nat) returns (newLocation: EntityLocation)
      requires Valid() && bundleId < |bundles|
      requires EntitiesGet(meta, entity) == Some(location)
      modifies this`archetypes, this`byComponents, this`archetypeComponentCount, this`tables, this`tableIds,
               this`sparseSets, this`meta, this`triggers, this`removed
      ensures Valid()
      ensures EntitiesGet(meta, entity) == Some(newLocation)
      ensures entity in old(Abs(S()))
      ensures Abs(S()) == old(Abs(S()))[entity := old(Abs(S()))[entity] - ToSet(old(bundles)[bundleId])]
      ensures triggers
              == old(triggers)
                + RemoveTriggers(old(components), entity, old(bundles)[bundleId], old(Abs(S()))[entity].Keys)
      ensures removed
              == old(removed) + RemovedEvents(entity, Within(old(bundles)[bundleId], old(Abs(S()))[entity].Keys))
      ensures EmptyTableSplit(archetypes)
              <==> old(EmptyTableSplit(archetypes))
                   || SplitsEmptyTable(old(S()), location.archetypeId, ToSet(old(bundles)[bundleId]))
      ensures NoneFreed(old(meta), meta)
    {
      hide Inv, IdsExact, Abs, Extends, MovedTo, MovesAllowed, Within, SetsHold, SetsRemoved, Archetype.ComponentSet;
      hide AnyHooked, Fired;
      hide EmptyTableSplit, NoneFreed, SplitsEmptyTable, RemovedEvents, ToSet;
      ghost var s0 := S();
      NoneFreedIsReflexive(meta);
      var bundle := bundles[bundleId];
      LocationsAgree(s0, entity.index);
      var a := location.archetypeId;
      var target := RemoveBundleFromArchetype(a, bundleId, true);
      ghost var s := S();
      PlanRemoval(s0, s, entity, location, bundleId, target.value);
      if target.value == a {
        NothingToRemove(s, entity, a, bundle);
        return location;
      }
      newLocation := RemoveAway(entity, location, bundleId, target.value);
    }

    /** The rest of `remove_bundle` once the target is known. */
    method RemoveAway(entity: Entity, location: EntityLocation, bundleId: nat, target: nat)
      returns (newLocation: EntityLocation)
      requires bundleId < |bundles| && EntitiesGet(meta, entity) == Some(location)
      requires RemovalPlanned(S(), entity, location.archetypeId, bundles[bundleId], target)
               && target != location.archetypeId
      requires Valid()
      modifies this`archetypes, this`tables, this`sparseSets, this`meta, this`triggers, this`removed
      ensures Valid()
      ensures EntitiesGet(meta, entity) == Some(newLocation)
      ensures entity in old(Abs(S()))
              && Abs(S()) == old(Abs(S()))[entity := old(Abs(S()))[entity] - ToSet(old(bundles)[bundleId])]
      ensures triggers
              == old(triggers)
                + RemoveTriggers(old(components), entity, old(bundles)[bundleId], old(Abs(S()))[entity].Keys)
      ensures removed
              == old(removed) + RemovedEvents(entity, Within(old(bundles)[bundleId], old(Abs(S()))[entity].Keys))
      ensures EmptyTableSplit(archetypes) <==> old(EmptyTableSplit(archetypes))
      ensures NoneFreed(old(meta), meta)
    {
      hide Inv, IdsExact, Abs, Extends, MovedTo, MovesAllowed, Within, SetsHold, SetsRemoved, Archetype.ComponentSet;
      hide AnyHooked, Fired;
      hide RemovedEvents, EmptyTableSplit, NoneFreed;
      ghost var s := S();
      var bundle, a := bundles[bundleId], location.archetypeId;
      Fire(OnRemove, a, entity, bundle);
      DropComponents(entity, bundle, archetypes[a].ComponentSet());
      ghost var sets := sparseSets;
      DroppingAllowsMoves(s, sets);
      newLocation := MoveFromRemove(entity, location, target);
      RemoveSettles(s, sets, S(), entity, a, target, ToSet(bundle));
      IdsSurvive(s.archetypes, archetypes, issued, archetypeComponentCount);
    }

    /** `take_component` for component `k` of the bundle: a sparse one leaves its set. */
    method TakeComponent(ghost s: Store, entity: Entity, location: EntityLocation, ghost bundle: seq<ComponentId>,
                         ghost k: nat, ghost here: set<ComponentId>, c: ComponentId)
      returns (value: Value)
      requires S() == s.(sparseSets := sparseSets)
      requires k < |bundle| && NoDuplicates(bundle) && c == bundle[k] && c in here
      requires SetsHold(s, entity, here) && Readable(s, entity, location, c)
      requires SetsRemoved(s.sparseSets, sparseSets, entity, ToSet(bundle[..k]))
      modifies this`sparseSets, this`removed
      ensures Lookup(s, entity, c).Some? && value == Lookup(s, entity, c).value.value
      ensures SetsRemoved(s.sparseSets, sparseSets, entity, ToSet(bundle[..k]) + {c})
      ensures removed == old(removed) + [(c, entity)]
    {
      hide SetsRemoved, SetsHold, SparseSet.Remove, SparseSet.Wf, Lookup, SparseSet.Get, NoDuplicates;
      removed := removed + [(c, entity)];
      if components[c].storage == InTable {
        KeepStep(s, sparseSets, entity, here, ToSet(bundle[..k]), c);
        value := tables[location.tableId].columns[c][location.tableRow].cell.value;
      } else {
        DropStep(s, sparseSets, entity, here, ToSet(bundle[..k]), c);
        TakeStep(s, sparseSets, entity, bundle, k);
        value := sparseSets[c].Get(entity.index).value.value;
        sparseSets := sparseSets[c := sparseSets[c].Remove(entity)];
      }
    }

    /** `T::from_components`: the components of the bundle, in order. */
    method TakeComponents(entity: Entity, location: EntityLocation, bundle: seq<ComponentId>,
                          ghost here: set<ComponentId>)
      returns (values: seq<Value>)
      requires SetsHold(S(), entity, here) && NoDuplicates(bundle) && ToSet(bundle) <= here
      requires forall k :: 0 <= k < |bundle| ==> Readable(S(), entity, location, bundle[k])
      modifies this`sparseSets, this`removed
      ensures |values| == |bundle|
      ensures forall k :: 0 <= k < |bundle| ==>
                old(Lookup(S(), entity, bundle[k])).Some?
                  && values[k] == old(Lookup(S(), entity, bundle[k])).value.value
      ensures SetsRemoved(old(sparseSets), sparseSets, entity, ToSet(bundle))
      ensures removed == old(removed) + RemovedEvents(entity, Within(bundle, here))
    {
      hide SetsRemoved, SetsHold, Within, RemovedEvents, Lookup, NoDuplicates, Readable, ToSet;
      ghost var s := S();
      NothingDropped(s, entity, bundle, here);
      InToSet(bundle);
      values := [];
      for k := 0 to |bundle|
        modifies this`sparseSets, this`removed
        invariant |values| == k
        invariant forall j :: 0 <= j < k ==>
                    Lookup(s, entity, bundle[j]).Some? && values[j] == Lookup(s, entity, bundle[j]).value.value
        invariant SetsRemoved(s.sparseSets, sparseSets, entity, ToSet(bundle[..k]))
        invariant removed == old(removed) + RemovedEvents(entity, Within(bundle[..k], here))
      {
        EventsSnoc(entity, bundle, k, here);
        var value := TakeComponent(s, entity, location, bundle, k, here, bundle[k]);
        values := values + [value];
      }
      assert bundle[..|bundle|] == bundle;
    }

    /** `EntityWorldMut::take`: all components of the bundle or none; an empty bundle is never returned. */
    method Take(entity: Entity, location: EntityLocation, bundleId: nat) returns (values: Option<seq<Value>>)
      requires bundleId < |bundles|
      requires EntitiesGet(meta, entity) == Some(location) && Valid()
      modifies this`archetypes, this`byComponents, this`archetypeComponentCount, this`tables, this`tableIds,
               this`sparseSets, this`meta, this`triggers, this`removed
      ensures Valid()
      ensures entity in old(Abs(S()))
      ensures values.Some?
              <==> old(bundles)[bundleId] != [] && ToSet(old(bundles)[bundleId]) <= old(Abs(S()))[entity].Keys
      ensures values.None? ==> Abs(S()) == old(Abs(S())) && triggers == old(triggers) && removed == old(removed)
      ensures values.Some? ==>
                && Abs(S()) == old(Abs(S()))[entity := old(Abs(S()))[entity] - ToSet(old(bundles)[bundleId])]
                && ReadOut(old(Abs(S()))[entity], old(bundles)[bundleId], values.value)
                && triggers
                   == old(triggers)
                     + RemoveTriggers(old(components), entity, old(bundles)[bundleId], old(Abs(S()))[entity].Keys)
                && removed
                   == old(removed) + RemovedEvents(entity, Within(old(bundles)[bundleId], old(Abs(S()))[entity].Keys))
      ensures EmptyTableSplit(archetypes)
              <==> old(EmptyTableSplit(archetypes))
                   || (values.Some? && SplitsEmptyTable(old(S()), location.archetypeId, ToSet(old(bundles)[bundleId])))
      ensures NoneFreed(old(meta), meta)
    {
      hide Inv, IdsExact, Abs, Extends, MovedTo, MovesAllowed, Within, SetsHold, SetsRemoved, Archetype.ComponentSet;
      hide AnyHooked, Fired;
      hide Readable, Lookup, NoDuplicates, RemovedEvents, EmptyTableSplit, NoneFreed, SplitsEmptyTable;
      ghost var s0 := S();
      NoneFreedIsReflexive(meta);
      var bundle := bundles[bundleId];
      LocationsAgree(s0, entity.index);
      EntityHas(s0, entity);
      var a := location.archetypeId;
      var target := RemoveBundleFromArchetype(a, bundleId, false);
      if target.None? {
        return None;
      }
      ghost var s := S();
      PlanRemoval(s0, s, entity, location, bundleId, target.value);
      TakingSomething(bundle, Abs(s)[entity].Keys);
      if target.value == a {
        SameComponentSets(s0, s, a);
        StayingSplitsNothing(s0, a, ToSet(bundle));
        return None;
      }
      var taken := TakeAway(entity, location, bundleId, target.value);
      values := Some(taken);
    }

    /** The rest of `take` once the target is known. */
    method TakeAway(entity: Entity, location: EntityLocation, bundleId: nat, target: nat) returns (values: seq<Value>)
      requires bundleId < |bundles| && EntitiesGet(meta, entity) == Some(location)
      requires RemovalPlanned(S(), entity, location.archetypeId, bundles[bundleId], target)
               && target != location.archetypeId
      requires ToSet(bundles[bundleId]) <= archetypes[location.archetypeId].ComponentSet()
      requires Valid()
      modifies this`archetypes, this`tables, this`sparseSets, this`meta, this`triggers, this`removed
      ensures Valid()
      ensures entity in old(Abs(S()))
              && Abs(S()) == old(Abs(S()))[entity := old(Abs(S()))[entity] - ToSet(old(bundles)[bundleId])]
      ensures ReadOut(old(Abs(S()))[entity], old(bundles)[bundleId], values)
      ensures triggers
              == old(triggers)
                + RemoveTriggers(old(components), entity, old(bundles)[bundleId], old(Abs(S()))[entity].Keys)
      ensures removed
              == old(removed) + RemovedEvents(entity, Within(old(bundles)[bundleId], old(Abs(S()))[entity].Keys))
      ensures EmptyTableSplit(archetypes) <==> old(EmptyTableSplit(archetypes))
      ensures NoneFreed(old(meta), meta)
    {
      hide Inv, IdsExact, Abs, Extends, MovedTo, MovesAllowed, Within, SetsHold, SetsRemoved, Archetype.ComponentSet;
      hide AnyHooked, Fired;
      hide Readable, Lookup, NoDuplicates, RemovedEvents, EmptyTableSplit, NoneFreed;
      ghost var s := S();
      var bundle, a := bundles[bundleId], location.archetypeId;
      Fire(OnRemove, a, entity, bundle);
      PlanTake(s, entity, location, bundleId);
      values := TakeComponents(entity, location, bundle, archetypes[a].ComponentSet());
      TakenValues(s, entity, bundle, values);
      ghost var sets := sparseSets;
      DroppingAllowsMoves(s, sets);
      var newLocation := MoveFromRemove(entity, location, target);
      RemoveSettles(s, sets, S(), entity, a, target, ToSet(bundle));
      IdsSurvive(s.archetypes, archetypes, issued, archetypeComponentCount);
    }

    // ---- despawning ------------------------------------------------------------------------

    /** The loop of `despawn` over the sparse components of the archetype. */
    method LeaveSparseSets(ghost s: Store, entity: Entity, sparse: seq<ComponentId>, ghost here: set<ComponentId>)
      requires s.components == components && s.sparseSets == sparseSets && SetsHold(s, entity, here)
      requires forall k :: 0 <= k < |sparse| ==>
                 sparse[k] in here && sparse[k] < |components| && components[sparse[k]].storage == InSparseSet
      modifies this`sparseSets
      ensures SetsRemoved(s.sparseSets, sparseSets, entity, ToSet(sparse))
    {
      hide SetsRemoved, SetsHold, SparseSet.Remove, SparseSet.Wf, ToSet;
      NothingDropped(s, entity, sparse, here);
      for k := 0 to |sparse|
        invariant SetsRemoved(s.sparseSets, sparseSets, entity, ToSet(sparse[..k]))
      {
        var c := sparse[k];
        EventsSnoc(entity, sparse, k, here);
        DropStep(s, sparseSets, entity, here, ToSet(sparse[..k]), c);
        sparseSets := sparseSets[c := sparseSets[c].Remove(entity)];
      }
      assert sparse[..|sparse|] == sparse;
    }

    /** The rest of `despawn` once the index is free: both rows are vacated and the sparse sets left. */
    method VacateRows(ghost s: Store, entity: Entity, location: EntityLocation, ghost here: set<ComponentId>)
      requires DespawnPlanned(s, entity, location, here)
      requires S() == s.(meta := s.meta[entity.index := EntityMeta(NextGeneration(entity.generation), None)],
                         pending := s.pending + [entity.index])
      modifies this`archetypes, this`tables, this`sparseSets, this`meta
      ensures SetsRemoved(s.sparseSets, sparseSets, entity, ToSet(SparseComponents(s.archetypes[location.archetypeId])))
      ensures S() == Despawned(s, entity.index, sparseSets)
    {
      hide Coherent, TablesWf, SetsHold, SetsRemoved, Despawned;
      AllSparse(s, entity, location, here);
      FreeingFirst(s, entity.index, s.sparseSets);
      var sparse := SparseComponents(archetypes[location.archetypeId]);
      var tableRow := VacateArchetypeRow(location.archetypeId, location.archetypeRow);
      LeaveSparseSets(s, entity, sparse, here);
      var moved := tables[location.tableId].SwappedInto(tableRow);
      assert tables[location.tableId].Wf() by {
        assert TablesWf(s.tables);
      }
      tables := tables[location.tableId := tables[location.tableId].RemoveRow(tableRow)];
      if moved.Some? {
        PatchSwappedTableRow(moved.value, tableRow);
      }
      FreeingFirst(s, entity.index, sparseSets);
    }

    /** `EntityWorldMut::despawn`. */
    method DespawnEntity(entity: Entity, location: EntityLocation) returns (ghost order: seq<ComponentId>)
      requires EntitiesGet(meta, entity) == Some(location) && Valid()
      modifies this`archetypes, this`tables, this`sparseSets, this`meta, this`pending, this`triggers, this`removed
      ensures Valid()
      ensures entity in old(Abs(S())) && Abs(S()) == old(Abs(S())) - {entity}
      ensures NoDuplicates(order) && ToSet(order) == old(Abs(S()))[entity].Keys
      ensures triggers == old(triggers) + Fired(old(components), OnRemove, entity, order)
      ensures removed == old(removed) + RemovedEvents(entity, order)
      ensures location.archetypeId < |old(archetypes)|
              && order == Ids(old(archetypes)[location.archetypeId].components)
      ensures pending == old(pending) + [entity.index] && entity.index < |meta| == old(|meta|)
      ensures 1 <= entity.generation <= MAX_GENERATION
              && meta[entity.index] == EntityMeta(NextGeneration(entity.generation), None)
      ensures EmptyTableSplit(archetypes) <==> old(EmptyTableSplit(archetypes))
      ensures HandlesAdvance(old(meta), meta)
    {
      hide Inv, IdsExact, Abs, SetsHold, SetsRemoved, NoDuplicates, Fired, RemovedEvents, Archetype.ComponentSet;
      hide SameComponents, Despawned, DespawnPlanned, ToSet, SparseComponents, EmptyTableSplit, HandlesAdvance;
      ghost var s := S();
      LocationsAgree(s, entity.index);
      var a := location.archetypeId;
      PlanDespawn(s, entity, location);
      GenerationInRange(s, entity.index);
      var targets := Ids(archetypes[a].components);
      order := targets;
      Fire(OnRemove, a, entity, targets);
      SendRemoved(entity, targets);
      // free
      meta := meta[entity.index := EntityMeta(NextGeneration(entity.generation), None)];
      pending := pending + [entity.index];
      VacateRows(s, entity, location, archetypes[a].ComponentSet());
      DespawnSettles(s, sparseSets, S(), entity, location);
      IdsSurvive(s.archetypes, archetypes, issued, archetypeComponentCount);
    }

    method SendRemoved(entity: Entity, targets: seq<ComponentId>)
      modifies this`removed
      ensures removed == old(removed) + RemovedEvents(entity, targets)
    {
      for k := 0 to |targets|
        invariant removed == old(removed) + RemovedEvents(entity, targets[..k])
      {
        assert RemovedEvents(entity, targets[..k + 1]) == RemovedEvents(entity, targets[..k]) + [(targets[k], entity)];
        removed := removed + [(targets[k], entity)];
      }
      assert targets[..|targets|] == targets;
    }

    // ---- runs ------------------------------------------------------------------------------

    ghost function Registered(): Registry
      reads this
    {
      Registry(components, bundles)
    }

    /** One operation of a caller. An operation on an entity that is not alive does nothing. */
    method Apply(ghost r: Registry, op: Op) returns (ghost step: Step)
      requires r == Registered() && OpTyped(r, op)
      requires Valid()
      modifies this`archetypes, this`byComponents, this`archetypeComponentCount, this`tables, this`tableIds,
               this`sparseSets, this`meta, this`pending, this`triggers, this`removed
      ensures Valid()
      ensures Takes(op, r, step)
      ensures step.before == old(Abs(S())) && step.after == Abs(S())
      ensures triggers == old(triggers) + step.fired && removed == old(removed) + step.removed
      ensures EmptyTableSplit(archetypes) <==> old(EmptyTableSplit(archetypes)) || OpSplits(old(S()), op)
      ensures HandlesAdvance(old(meta), meta)
    {
      hide Inv, IdsExact, Abs, Overwrite, InsertTriggers, RemoveTriggers, RemovedEvents, Within, NoDuplicates, Fired;
      hide EmptyTableSplit, NoneFreed, HandlesAdvance, SplitsEmptyTable;
      ghost var before := Abs(S());
      ghost var s := S();
      NoneFreedIsReflexive(meta);
      match op {
        case SpawnOp(b, values, tick) =>
          var entity := SpawnBundle(b, values, tick);
          step := Step(before, Abs(S()), InsertTriggers(components, entity, bundles[b], {}), []);
          assert Spawns(components, bundles[b], values, tick, entity, step);
        case InsertOp(entity, b, values, tick) =>
          LiveEntities(S(), entity);
          var location := EntitiesGet(meta, entity);
          if location.Some? {
            var l := InsertBundle(entity, location.value, b, values, tick);
            step := Step(before, Abs(S()), InsertTriggers(components, entity, bundles[b], before[entity].Keys), []);
          } else {
            step := Step(before, before, [], []);
          }
        case RemoveOp(entity, b) =>
          LiveEntities(S(), entity);
          var location := EntitiesGet(meta, entity);
          if location.Some? {
            var l := RemoveBundle(entity, location.value, b);
            step := Step(before, Abs(S()), RemoveTriggers(components, entity, bundles[b], before[entity].Keys),
                         RemovedEvents(entity, Within(bundles[b], before[entity].Keys)));
          } else {
            step := Step(before, before, [], []);
          }
        case TakeOp(entity, b) =>
          step := ApplyTake(r, entity, b);
        case DespawnOp(entity) =>
          LiveEntities(S(), entity);
          var location := EntitiesGet(meta, entity);
          if location.Some? {
            ghost var order := DespawnEntity(entity, location.value);
            step := Step(before, Abs(S()), Fired(components, OnRemove, entity, order), RemovedEvents(entity, order));
            assert Despawns(components, entity, order, step);
          } else {
            step := Step(before, before, [], []);
          }
      }
      if NoneFreed(s.meta, meta) {
        NoneFreedAdvances(s, meta);
      }
    }

    method ApplyTake(ghost r: Registry, entity: Entity, b: nat) returns (ghost step: Step)
      requires r == Registered() && OpTyped(r, TakeOp(entity, b))
      requires Valid()
      modifies this`archetypes, this`byComponents, this`archetypeComponentCount, this`tables, this`tableIds,
               this`sparseSets, this`meta, this`triggers, this`removed
      ensures Valid()
      ensures Takes(TakeOp(entity, b), r, step)
      ensures step.before == old(Abs(S())) && step.after == Abs(S())
      ensures triggers == old(triggers) + step.fired && removed == old(removed) + step.removed
      ensures EmptyTableSplit(archetypes) <==> old(EmptyTableSplit(archetypes)) || OpSplits(old(S()), TakeOp(entity, b))
      ensures NoneFreed(old(meta), meta)
    {
      hide Inv, IdsExact, Abs, RemoveTriggers, RemovedEvents, Within;
      hide EmptyTableSplit, NoneFreed;
      ghost var before := Abs(S());
      NoneFreedIsReflexive(meta);
      LiveEntities(S(), entity);
      step := Step(before, before, [], []);
      var location := EntitiesGet(meta, entity);
      if location.Some? {
        var values := Take(entity, location.value, b);
        if values.Some? {
          step := Step(before, Abs(S()), RemoveTriggers(components, entity, bundles[b], before[entity].Keys),
                       RemovedEvents(entity, Within(bundles[b], before[entity].Keys)));
        } else if bundles[b] == [] {
          TakingNothing(components, entity, before);
        }
      }
    }

    /** Every run of operations keeps every invariant, and is a run of the simple thing. */
    method RunOps(ghost r: Registry, ops: seq<Op>) returns (ghost steps: seq<Step>)
      requires r == Registered() && AllTyped(r, ops)
      requires Valid()
      modifies this`archetypes, this`byComponents, this`archetypeComponentCount, this`tables, this`tableIds,
               this`sparseSets, this`meta, this`pending, this`triggers, this`removed
      ensures Valid()
      ensures Run(r, ops, old(Abs(S())), steps, Abs(S()))
      ensures triggers == old(triggers) + AllFired(steps) && removed == old(removed) + AllRemoved(steps)
      ensures OnlyAdds(ops) ==> (EmptyTableSplit(archetypes) <==> old(EmptyTableSplit(archetypes)))
    {
      hide Inv, IdsExact, Abs, Takes, OpTyped, Run, EmptyTableSplit, HandlesAdvance;
      steps := [];
      NoSteps(r, Abs(S()));
      for k := 0 to |ops|
        invariant Valid() && AllTyped(r, ops[..k])
        invariant Run(r, ops[..k], old(Abs(S())), steps, Abs(S()))
        invariant triggers == old(triggers) + AllFired(steps) && removed == old(removed) + AllRemoved(steps)
        invariant OnlyAdds(ops) ==> (EmptyTableSplit(archetypes) <==> old(EmptyTableSplit(archetypes)))
      {
        ghost var step := Apply(r, ops[k]);
        RunSnoc(r, ops[..k], old(Abs(S())), steps, step.before, ops[k], step);
        assert ops[..k + 1] == ops[..k] + [ops[k]];
        steps := steps + [step];
      }
      assert ops[..|ops|] == ops;
    }
  }
}
