/**
  Growing the archetype graph: new tables, new archetypes and new cached edges. None of this moves an
  entity, and none of it may disturb the exactness of what is already there.
 */
module Graph {
  import opened Collections
  import opened Storage
  import opened Locations
  import opened Stores

  // ---- the archetype graph only grows ----------------------------------------------------

  /** `t` has the archetypes, tables and data of `s`; what is new in `t` holds no entity. */
  ghost predicate Extends(s: Store, t: Store) {
    && t.components == s.components && t.bundles == s.bundles
    && t.meta == s.meta && t.pending == s.pending && t.sparseSets == s.sparseSets
    && |s.archetypes| <= |t.archetypes|
    && (forall a :: 0 <= a < |s.archetypes| ==> t.archetypes[a].(edges := s.archetypes[a].edges) == s.archetypes[a])
    && (forall a :: |s.archetypes| <= a < |t.archetypes| ==> t.archetypes[a].entities == [])
    && |s.tables| <= |t.tables|
    && (forall u :: 0 <= u < |s.tables| ==> t.tables[u] == s.tables[u])
    && (forall u :: |s.tables| <= u < |t.tables| ==> t.tables[u].Wf() && t.tables[u].entities == [])
  }

  lemma ExtendsIsReflexive(s: Store)
    ensures Extends(s, s)
  {
  }

  lemma ExtendsIsTransitive(s: Store, t: Store, u: Store)
    requires Extends(s, t) && Extends(t, u)
    ensures Extends(s, u)
  {
    forall a | 0 <= a < |s.archetypes|
      ensures u.archetypes[a].(edges := s.archetypes[a].edges) == s.archetypes[a]
    {
      assert t.archetypes[a].(edges := s.archetypes[a].edges) == s.archetypes[a];
      assert u.archetypes[a].(edges := t.archetypes[a].edges) == t.archetypes[a];
    }
  }

  lemma SameComponentSets(s: Store, t: Store, a: nat)
    requires Extends(s, t)
    requires a < |s.archetypes|
    ensures t.archetypes[a].ComponentSet() == s.archetypes[a].ComponentSet()
  {
    assert t.archetypes[a].(edges := s.archetypes[a].edges) == s.archetypes[a];
  }

  lemma ExtendingKeepsLocations(s: Store, t: Store)
    requires Extends(s, t)
    requires Coherent(s)
    ensures Coherent(t)
  {
    forall a | 0 <= a < |s.archetypes|
      ensures t.archetypes[a].entities == s.archetypes[a].entities && t.archetypes[a].tableId == s.archetypes[a].tableId
    {
      assert t.archetypes[a].(edges := s.archetypes[a].edges) == s.archetypes[a];
    }
  }

  lemma ExtendingKeepsData(s: Store, t: Store)
    requires Extends(s, t)
    requires ArchetypeSide(s.archetypes, s.meta, {}) && DataInv(s)
    ensures DataInv(t)
  {
    forall i: nat, c: nat
      ensures HasComponent(t.archetypes, t.meta, i, c) <==> HasComponent(s.archetypes, s.meta, i, c)
    {
      if i < |s.meta| && s.meta[i].location.Some? {
        SameComponentSets(s, t, s.meta[i].location.value.archetypeId);
      }
    }
    assert SparseSide(t.archetypes, t.meta, t.sparseSets, {}) by {
      forall c | c in t.sparseSets
        ensures SetSide(t.archetypes, t.meta, c, t.sparseSets[c], {})
      {
        assert SetSide(s.archetypes, s.meta, c, s.sparseSets[c], {});
      }
    }
    assert TablesWf(t.tables);
    forall u, c, r | 0 <= u < |t.tables| && c in t.tables[u].columns && 0 <= r < |t.tables[u].columns[c]|
      ensures t.tables[u].columns[c][r].Init?
    {
      if u < |s.tables| {
        assert t.tables[u] == s.tables[u];
      }
    }
  }

  lemma ExtendingKeepsLookups(s: Store, t: Store)
    requires Extends(s, t)
    requires TableSide(s.tables, s.meta, {})
    ensures Abs(t) == Abs(s)
  {
    forall e: Entity, c: nat
      ensures Lookup(t, e, c) == Lookup(s, e, c)
    {
    }
    forall e | e in Alive(s.meta)
      ensures ComponentsOf(t, e) == ComponentsOf(s, e)
    {
    }
  }

  /** The graph invariant reads only the graph. */
  lemma SameGraph(s: Store, t: Store)
    requires GraphInv(s)
    requires t == s.(sparseSets := t.sparseSets, meta := t.meta, pending := t.pending)
    ensures GraphInv(t)
  {
    hide ArchetypeWf, BundlesWf, TablesCanonical, ByComponentsExact, EdgesExact;
  }

  // ---- new tables -----------------------------------------------------------------------------

  /** `Tables::get_id_or_insert` for a list of components that has no table yet. */
  function WithTable(s: Store, ids: seq<ComponentId>): Store {
    s.(tables := s.tables + [Table.Empty(ToSet(ids))], tableIds := s.tableIds[ids := |s.tables|])
  }

  lemma NewTableKeepsGraph(s: Store, ids: seq<ComponentId>)
    requires GraphInv(s)
    requires ids !in s.tableIds && StrictlySorted(ids)
    ensures GraphInv(WithTable(s, ids)) && Extends(s, WithTable(s, ids))
  {
    hide BundlesWf, ByComponentsExact, EdgesExact, ArchetypeWf;
    var t := WithTable(s, ids);
    forall a | 0 <= a < |t.archetypes|
      ensures ArchetypeWf(t.components, t.tables, t.tableIds, t.archetypes[a])
    {
      ArchetypeSurvivesNewTable(s, ids, s.archetypes[a]);
    }
  }

  lemma ArchetypeSurvivesNewTable(s: Store, ids: seq<ComponentId>, a: Archetype)
    requires ids !in s.tableIds
    requires ArchetypeWf(s.components, s.tables, s.tableIds, a)
    ensures ArchetypeWf(s.components, WithTable(s, ids).tables, WithTable(s, ids).tableIds, a)
  {
  }

  // ---- new archetypes --------------------------------------------------------------------

  function Tagged(ids: seq<ComponentId>, st: StorageType, start: nat): (r: seq<ArchetypeComponent>) {
    if ids == [] then [] else [ArchetypeComponent(ids[0], st, start)] + Tagged(ids[1..], st, start + 1)
  }

  lemma {:induction false} TaggedElements(ids: seq<ComponentId>, st: StorageType, start: nat)
    ensures |Tagged(ids, st, start)| == |ids|
    ensures forall k :: 0 <= k < |ids| ==> Tagged(ids, st, start)[k] == ArchetypeComponent(ids[k], st, start + k)
  {
    if ids != [] {
      TaggedElements(ids[1..], st, start + 1);
    }
  }

  lemma {:induction false} WithStorageOfTagged(ids: seq<ComponentId>, st: StorageType, start: nat,
                                               rest: seq<ArchetypeComponent>, want: StorageType)
    ensures WithStorage(Tagged(ids, st, start) + rest, want)
            == (if st == want then ids else []) + WithStorage(rest, want)
  {
    var tagged := Tagged(ids, st, start);
    if ids == [] {
      assert tagged + rest == rest;
    } else {
      assert (tagged + rest)[1..] == Tagged(ids[1..], st, start + 1) + rest;
      WithStorageOfTagged(ids[1..], st, start + 1, rest, want);
      assert [ids[0]] + ids[1..] == ids;
    }
  }

  function NewComponents(tableIds: seq<ComponentId>, sparseIds: seq<ComponentId>, start: nat): seq<ArchetypeComponent> {
    Tagged(tableIds, InTable, start) + Tagged(sparseIds, InSparseSet, start + |tableIds|)
  }

  lemma NewComponentsFilterBack(tableIds: seq<ComponentId>, sparseIds: seq<ComponentId>, start: nat)
    ensures WithStorage(NewComponents(tableIds, sparseIds, start), InTable) == tableIds
    ensures WithStorage(NewComponents(tableIds, sparseIds, start), InSparseSet) == sparseIds
  {
    var sparse := Tagged(sparseIds, InSparseSet, start + |tableIds|);
    assert sparse + [] == sparse;
    WithStorageOfTagged(tableIds, InTable, start, sparse, InTable);
    WithStorageOfTagged(tableIds, InTable, start, sparse, InSparseSet);
    WithStorageOfTagged(sparseIds, InSparseSet, start + |tableIds|, [], InTable);
    WithStorageOfTagged(sparseIds, InSparseSet, start + |tableIds|, [], InSparseSet);
  }

  /** `update_archetype_flags` folded over the components of a new archetype. */
  function FlagsOf(infos: seq<ComponentInfo>, cs: seq<ArchetypeComponent>): Flags
    requires forall k :: 0 <= k < |cs| ==> cs[k].id < |infos|
  {
    if cs == [] then Flags(false, false, false)
    else
      var flags := FlagsOf(infos, cs[..|cs| - 1]);
      var hooks := infos[cs[|cs| - 1].id].hooks;
      Flags(flags.onAdd || hooks.onAdd, flags.onInsert || hooks.onInsert, flags.onRemove || hooks.onRemove)
  }

  lemma {:induction false} FlagsOfIsExact(infos: seq<ComponentInfo>, a: Archetype, n: nat)
    requires ComponentsRegistered(infos, a)
    requires n <= |a.components|
    ensures var flags := FlagsOf(infos, a.components[..n]);
            && (flags.onAdd <==> exists k :: 0 <= k < n && infos[a.components[k].id].hooks.onAdd)
            && (flags.onInsert <==> exists k :: 0 <= k < n && infos[a.components[k].id].hooks.onInsert)
            && (flags.onRemove <==> exists k :: 0 <= k < n && infos[a.components[k].id].hooks.onRemove)
  {
    if n > 0 {
      FlagsOfIsExact(infos, a, n - 1);
      assert a.components[..n][..n - 1] == a.components[..n - 1];
    }
  }

  function NewArchetype(infos: seq<ComponentInfo>, id: nat, tableId: nat,
                        components: seq<ArchetypeComponent>): Archetype
    requires forall k :: 0 <= k < |components| ==> components[k].id < |infos|
  {
    Archetype(id, tableId, Edges(map[], map[], map[]), [], components, FlagsOf(infos, components))
  }

  ghost predicate StoredAs(infos: seq<ComponentInfo>, ids: seq<ComponentId>, st: StorageType) {
    forall k :: 0 <= k < |ids| ==> ids[k] < |infos| && infos[ids[k]].storage == st
  }

  lemma NewComponentsRegistered(infos: seq<ComponentInfo>, tableIds: seq<ComponentId>, sparseIds: seq<ComponentId>,
                                start: nat)
    requires StoredAs(infos, tableIds, InTable) && StoredAs(infos, sparseIds, InSparseSet)
    ensures forall k :: 0 <= k < |NewComponents(tableIds, sparseIds, start)| ==>
              var c := NewComponents(tableIds, sparseIds, start)[k];
              c.id < |infos| && infos[c.id].storage == c.storage && c.archetypeComponentId == start + k
    ensures |NewComponents(tableIds, sparseIds, start)| == |tableIds| + |sparseIds|
  {
    TaggedElements(tableIds, InTable, start);
    TaggedElements(sparseIds, InSparseSet, start + |tableIds|);
  }

  /** `Archetypes::get_id_or_insert` for a pair of component lists that has no archetype yet. */
  function WithArchetype(s: Store, tableId: nat, tableIds: seq<ComponentId>, sparseIds: seq<ComponentId>,
                         start: nat): Store
    requires StoredAs(s.components, tableIds, InTable) && StoredAs(s.components, sparseIds, InSparseSet)
  {
    NewComponentsRegistered(s.components, tableIds, sparseIds, start);
    var id := |s.archetypes|;
    var a := NewArchetype(s.components, id, tableId, NewComponents(tableIds, sparseIds, start));
    s.(archetypes := s.archetypes + [a],
       byComponents := s.byComponents[(tableIds, sparseIds) := id])
  }

  lemma NewArchetypeFlags(s: Store, tableId: nat, tableIds: seq<ComponentId>, sparseIds: seq<ComponentId>, start: nat)
    requires StoredAs(s.components, tableIds, InTable) && StoredAs(s.components, sparseIds, InSparseSet)
    ensures var a := WithArchetype(s, tableId, tableIds, sparseIds, start).archetypes[|s.archetypes|];
            ComponentsRegistered(s.components, a) && FlagsExact(s.components, a)
  {
    var a := WithArchetype(s, tableId, tableIds, sparseIds, start).archetypes[|s.archetypes|];
    NewComponentsRegistered(s.components, tableIds, sparseIds, start);
    hide NewComponents, StoredAs;
    assert ComponentsRegistered(s.components, a);
    FlagsOfIsExact(s.components, a, |a.components|);
    hide FlagsOf;
    assert a.components[..|a.components|] == a.components;
  }

  lemma NewArchetypeIsWf(s: Store, tableId: nat, tableIds: seq<ComponentId>, sparseIds: seq<ComponentId>, start: nat)
    requires StoredAs(s.components, tableIds, InTable) && StoredAs(s.components, sparseIds, InSparseSet)
    requires StrictlySorted(tableIds) && StrictlySorted(sparseIds)
    requires tableId < |s.tables| && s.tables[tableId].columns.Keys == ToSet(tableIds)
    requires CanonicalTable(s.tableIds, tableIds, tableId)
    ensures var a := WithArchetype(s, tableId, tableIds, sparseIds, start).archetypes[|s.archetypes|];
            && ArchetypeWf(s.components, s.tables, s.tableIds, a)
            && TableComponents(a) == tableIds && SparseComponents(a) == sparseIds
            && a.id == |s.archetypes| && a.entities == [] && a.edges == Edges(map[], map[], map[])
  {
    NewArchetypeFlags(s, tableId, tableIds, sparseIds, start);
    NewComponentsFilterBack(tableIds, sparseIds, start);
    hide NewComponents, WithStorage, FlagsOf, ComponentsRegistered, FlagsExact, StrictlySorted, StoredAs, ToSet;
  }

  lemma NewArchetypeKeepsGraph(s: Store, tableId: nat, tableIds: seq<ComponentId>, sparseIds: seq<ComponentId>,
                               start: nat)
    requires GraphInv(s)
    requires StoredAs(s.components, tableIds, InTable) && StoredAs(s.components, sparseIds, InSparseSet)
    requires StrictlySorted(tableIds) && StrictlySorted(sparseIds)
    requires tableId < |s.tables| && s.tables[tableId].columns.Keys == ToSet(tableIds)
    requires CanonicalTable(s.tableIds, tableIds, tableId)
    requires (tableIds, sparseIds) !in s.byComponents
    ensures GraphInv(WithArchetype(s, tableId, tableIds, sparseIds, start))
    ensures Extends(s, WithArchetype(s, tableId, tableIds, sparseIds, start))
  {
    hide BundlesWf, TablesCanonical, ArchetypeWf, EdgesOfExact, TableComponents, SparseComponents;
    hide Archetype.ComponentSet;
    var t := WithArchetype(s, tableId, tableIds, sparseIds, start);
    NewArchetypeIsWf(s, tableId, tableIds, sparseIds, start);
    var n := |s.archetypes|;
    NoEdgesAreExact(t.archetypes, t.bundles, n);
    assert EdgesExact(t.archetypes, t.bundles) by {
      forall a | 0 <= a < |t.archetypes|
        ensures EdgesOfExact(t.archetypes, t.bundles, a, t.archetypes[a].edges)
      {
        if a < n {
          EdgesOfSurvive(s.archetypes, t.archetypes, s.bundles, a, s.archetypes[a].edges);
        }
      }
    }
  }

  lemma NoEdgesAreExact(archetypes: seq<Archetype>, bundles: seq<seq<ComponentId>>, a: nat)
    requires a < |archetypes|
    ensures EdgesOfExact(archetypes, bundles, a, Edges(map[], map[], map[]))
  {
  }

  /** Exactness of edges is a matter of component sets, so it survives appending archetypes. */
  lemma EdgesOfSurvive(archetypes: seq<Archetype>, archetypes': seq<Archetype>, bundles: seq<seq<ComponentId>>, a: nat,
                       edges: Edges)
    requires a < |archetypes| <= |archetypes'|
    requires EdgesOfExact(archetypes, bundles, a, edges)
    requires forall k :: 0 <= k < |archetypes| ==> archetypes'[k].ComponentSet() == archetypes[k].ComponentSet()
    ensures EdgesOfExact(archetypes', bundles, a, edges)
  {
    forall b | b in edges.takeBundle
      ensures b < |bundles| && TakeEdgeExact(archetypes', a, bundles[b], edges.takeBundle[b])
    {
      assert TakeEdgeExact(archetypes, a, bundles[b], edges.takeBundle[b]);
    }
  }

  // ---- new edges ---------------------------------------------------------------------------

  function WithEdges(s: Store, a: nat, edges: Edges): Store
    requires a < |s.archetypes|
  {
    s.(archetypes := s.archetypes[a := s.archetypes[a].(edges := edges)])
  }

  /** Replacing the edges of one archetype by exact ones. */
  lemma NewEdgesKeepGraph(s: Store, a: nat, edges: Edges)
    requires GraphInv(s)
    requires a < |s.archetypes|
    requires EdgesOfExact(s.archetypes, s.bundles, a, edges)
    ensures GraphInv(WithEdges(s, a, edges)) && Extends(s, WithEdges(s, a, edges))
  {
    hide BundlesWf, TablesCanonical, ArchetypesWf, ByComponentsExact, EdgesOfExact, Archetype.ComponentSet;
    var t := WithEdges(s, a, edges);
    NewEdgesKeepArchetypes(s, a, edges);
    assert EdgesExact(t.archetypes, t.bundles) by {
      forall k | 0 <= k < |t.archetypes|
        ensures EdgesOfExact(t.archetypes, t.bundles, k, t.archetypes[k].edges)
      {
        EdgesOfSurvive(s.archetypes, t.archetypes, s.bundles, k, t.archetypes[k].edges);
      }
    }
  }

  lemma NewEdgesKeepArchetypes(s: Store, a: nat, edges: Edges)
    requires ArchetypesWf(s) && ByComponentsExact(s.archetypes, s.byComponents)
    requires a < |s.archetypes|
    ensures var t := WithEdges(s, a, edges);
            && ArchetypesWf(t) && ByComponentsExact(t.archetypes, t.byComponents)
            && forall k :: 0 <= k < |s.archetypes| ==> t.archetypes[k].ComponentSet() == s.archetypes[k].ComponentSet()
  {
    hide ArchetypeWf, TableComponents, SparseComponents;
    var t := WithEdges(s, a, edges);
    forall k | 0 <= k < |s.archetypes|
      ensures TableComponents(t.archetypes[k]) == TableComponents(s.archetypes[k])
      ensures SparseComponents(t.archetypes[k]) == SparseComponents(s.archetypes[k])
      ensures ArchetypeWf(t.components, t.tables, t.tableIds, t.archetypes[k])
    {
      EdgesDoNotMatter(s.components, s.tables, s.tableIds, s.archetypes[k], t.archetypes[k].edges);
    }
  }

  lemma EdgesDoNotMatter(infos: seq<ComponentInfo>, tables: seq<Table>, tableIds: map<seq<ComponentId>, nat>,
                         a: Archetype, edges: Edges)
    ensures TableComponents(a.(edges := edges)) == TableComponents(a)
    ensures SparseComponents(a.(edges := edges)) == SparseComponents(a)
    ensures ArchetypeWf(infos, tables, tableIds, a.(edges := edges)) <==> ArchetypeWf(infos, tables, tableIds, a)
  {
  }

  // ---- what the graph is for ---------------------------------------------------------------

  /** Sorted lists are determined by the component set. */
  lemma SameSetSameLists(infos: seq<ComponentInfo>, x: Archetype, y: Archetype)
    requires ComponentsRegistered(infos, x) && ComponentsRegistered(infos, y)
    requires StrictlySorted(TableComponents(x)) && StrictlySorted(SparseComponents(x))
    requires StrictlySorted(TableComponents(y)) && StrictlySorted(SparseComponents(y))
    requires x.ComponentSet() == y.ComponentSet()
    ensures TableComponents(x) == TableComponents(y) && SparseComponents(x) == SparseComponents(y)
  {
    StorageDecides(infos, x);
    StorageDecides(infos, y);
    hide ComponentsRegistered, TableComponents, SparseComponents, Archetype.ComponentSet, ToSet;
    assert ToSet(TableComponents(x)) == ToSet(TableComponents(y));
    assert ToSet(SparseComponents(x)) == ToSet(SparseComponents(y));
    SortedListsAreCanonical(TableComponents(x), TableComponents(y));
    SortedListsAreCanonical(SparseComponents(x), SparseComponents(y));
  }

  /** There is one archetype per component set. */
  lemma OneArchetypePerComponentSet(s: Store, a: nat, b: nat)
    requires ArchetypesWf(s) && ByComponentsExact(s.archetypes, s.byComponents)
    requires a < |s.archetypes| && b < |s.archetypes|
    requires s.archetypes[a].ComponentSet() == s.archetypes[b].ComponentSet()
    ensures a == b
  {
    hide ComponentsRegistered, FlagsExact, TableComponents, SparseComponents, StrictlySorted, Archetype.ComponentSet;
    assert ArchetypeWf(s.components, s.tables, s.tableIds, s.archetypes[a]);
    assert ArchetypeWf(s.components, s.tables, s.tableIds, s.archetypes[b]);
    SameSetSameLists(s.components, s.archetypes[a], s.archetypes[b]);
  }

  /** An exact edge is the only one a fresh computation could produce. */
  lemma ExactEdgesAreUnique(s: Store, a: nat, bundle: seq<ComponentId>, x: AddBundle, y: AddBundle)
    requires ArchetypesWf(s) && ByComponentsExact(s.archetypes, s.byComponents)
    requires a < |s.archetypes|
    requires AddEdgeExact(s.archetypes, a, bundle, x) && AddEdgeExact(s.archetypes, a, bundle, y)
    ensures x == y
  {
    hide ArchetypesWf, ByComponentsExact, Archetype.ComponentSet, ToSet, Without;
    OneArchetypePerComponentSet(s, x.archetypeId, y.archetypeId);
    forall k | 0 <= k < |bundle|
      ensures x.bundleStatus[k] == y.bundleStatus[k]
    {
      assert x.bundleStatus[k] == Mutated <==> y.bundleStatus[k] == Mutated;
    }
  }

  /** Archetypes that share a table have the same table components. */
  lemma SameTableSameComponents(s: Store, a: nat, b: nat)
    requires ArchetypesWf(s)
    requires a < |s.archetypes| && b < |s.archetypes|
    requires s.archetypes[a].tableId == s.archetypes[b].tableId
    ensures TableComponents(s.archetypes[a]) == TableComponents(s.archetypes[b])
  {
    assert ArchetypeWf(s.components, s.tables, s.tableIds, s.archetypes[a]);
    assert ArchetypeWf(s.components, s.tables, s.tableIds, s.archetypes[b]);
    SortedListsAreCanonical(TableComponents(s.archetypes[a]), TableComponents(s.archetypes[b]));
  }

  /** An archetype without table components that does not use the empty table 0. */
  ghost predicate UsesSecondEmptyTable(a: Archetype) {
    TableComponents(a) == [] && a.tableId != 0
  }

  ghost predicate EmptyTableSplit(archetypes: seq<Archetype>) {
    exists a :: 0 <= a < |archetypes| && UsesSecondEmptyTable(archetypes[a])
  }

  ghost predicate TablesMirrorComponents(s: Store) {
    forall a, b :: 0 <= a < |s.archetypes| && 0 <= b < |s.archetypes| ==>
      (s.archetypes[a].tableId == s.archetypes[b].tableId
       <==> TableComponents(s.archetypes[a]) == TableComponents(s.archetypes[b]))
  }

  /** "Same table iff same table components" holds exactly when no archetype uses a second empty table. */
  lemma TablesMirrorComponentsIff(s: Store)
    requires ArchetypesWf(s)
    ensures TablesMirrorComponents(s) <==> !EmptyTableSplit(s.archetypes)
  {
    assert TableComponents(s.archetypes[0]) == [] && s.archetypes[0].tableId == 0;
    if !EmptyTableSplit(s.archetypes) {
      forall a, b | 0 <= a < |s.archetypes| && 0 <= b < |s.archetypes|
        ensures s.archetypes[a].tableId == s.archetypes[b].tableId
                <==> TableComponents(s.archetypes[a]) == TableComponents(s.archetypes[b])
      {
        TablesMirror(s, a, b);
      }
    }
  }

  lemma TablesMirror(s: Store, a: nat, b: nat)
    requires ArchetypesWf(s) && a < |s.archetypes| && b < |s.archetypes|
    requires !UsesSecondEmptyTable(s.archetypes[a]) && !UsesSecondEmptyTable(s.archetypes[b])
    ensures s.archetypes[a].tableId == s.archetypes[b].tableId
            <==> TableComponents(s.archetypes[a]) == TableComponents(s.archetypes[b])
  {
    hide ComponentsRegistered, FlagsExact, TableComponents;
    if s.archetypes[a].tableId == s.archetypes[b].tableId {
      SameTableSameComponents(s, a, b);
    }
    assert CanonicalTable(s.tableIds, TableComponents(s.archetypes[a]), s.archetypes[a].tableId);
    assert CanonicalTable(s.tableIds, TableComponents(s.archetypes[b]), s.archetypes[b].tableId);
  }

  // ---- where a second empty table comes from -----------------------------------------------

  /** Archetypes differ in edges and entities only. */
  ghost predicate SameTables(archetypes: seq<Archetype>, archetypes': seq<Archetype>) {
    && |archetypes| <= |archetypes'|
    && forall a :: 0 <= a < |archetypes| ==>
         archetypes'[a].components == archetypes[a].components && archetypes'[a].tableId == archetypes[a].tableId
  }

  lemma SameTablesSplit(archetypes: seq<Archetype>, archetypes': seq<Archetype>)
    requires SameTables(archetypes, archetypes')
    ensures EmptyTableSplit(archetypes) ==> EmptyTableSplit(archetypes')
    ensures |archetypes| == |archetypes'| ==> (EmptyTableSplit(archetypes) <==> EmptyTableSplit(archetypes'))
  {
    forall a | 0 <= a < |archetypes|
      ensures UsesSecondEmptyTable(archetypes[a]) <==> UsesSecondEmptyTable(archetypes'[a])
    {
    }
  }

  lemma NewArchetypeSplitsIff(s: Store, tableId: nat, tableIds: seq<ComponentId>, sparseIds: seq<ComponentId>,
                              start: nat)
    requires StoredAs(s.components, tableIds, InTable) && StoredAs(s.components, sparseIds, InSparseSet)
    ensures EmptyTableSplit(WithArchetype(s, tableId, tableIds, sparseIds, start).archetypes)
            <==> EmptyTableSplit(s.archetypes) || (tableIds == [] && tableId != 0)
  {
    var t := WithArchetype(s, tableId, tableIds, sparseIds, start);
    NewComponentsFilterBack(tableIds, sparseIds, start);
    NewArchetypeSplits(s.archetypes, t.archetypes[|s.archetypes|]);
  }

  /** A new archetype splits the empty table exactly if it uses a second one itself. */
  lemma NewArchetypeSplits(archetypes: seq<Archetype>, a: Archetype)
    ensures EmptyTableSplit(archetypes + [a]) <==> EmptyTableSplit(archetypes) || UsesSecondEmptyTable(a)
  {
    assert (archetypes + [a])[|archetypes|] == a;
    if k :| 0 <= k < |archetypes| && UsesSecondEmptyTable(archetypes[k]) {
      assert (archetypes + [a])[k] == archetypes[k];
    }
  }
}
