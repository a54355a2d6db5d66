/** Registration and graph growth keep the whole invariant and change nothing a caller can observe. */
module Growth {
  import opened Collections
  import opened Storage
  import opened Locations
  import opened Stores
  import opened Graph

  function EmptyArchetype(): Archetype {
    Archetype(0, 0, Edges(map[], map[], map[]), [], [], Flags(false, false, false))
  }

  /** One empty archetype over one empty table. */
  function EmptyStore(): Store {
    Store([], [], [EmptyArchetype()], map[([], []) := 0], [Table.Empty({})], map[], map[], [], [])
  }

  lemma EmptyWorldInv()
    ensures Inv(EmptyStore()) && Abs(EmptyStore()) == map[]
  {
    hide GraphInv, DataInv;
    EmptyGraph();
    EmptyData(EmptyStore());
    assert Abs(EmptyStore()) == map[];
  }

  lemma EmptyData(s: Store)
    requires s.tables == [Table.Empty({})] && s.sparseSets == map[] && s.components == []
    requires s.meta == [] && s.pending == []
    ensures DataInv(s)
  {
  }

  lemma EmptyGraph()
    ensures GraphInv(EmptyStore())
  {
    hide ArchetypeWf, EdgesOfExact, TableComponents, SparseComponents;
    EmptyArchetypeWf();
    NoEdgesAreExact([EmptyArchetype()], [], 0);
  }

  lemma EmptyArchetypeWf()
    ensures ArchetypeWf([], [Table.Empty({})], map[], EmptyArchetype())
    ensures TableComponents(EmptyArchetype()) == [] && SparseComponents(EmptyArchetype()) == []
  {
    assert ToSet<nat>([]) == {};
  }

  lemma KeysNameArchetypes(s: Store, key: (seq<ComponentId>, seq<ComponentId>))
    requires GraphInv(s) && key in s.byComponents
    ensures var a := s.byComponents[key];
            && a < |s.archetypes|
            && TableComponents(s.archetypes[a]) == key.0 && SparseComponents(s.archetypes[a]) == key.1
  {
    hide ArchetypesWf, BundlesWf, TablesCanonical, EdgesExact;
  }

  lemma GrowingKeepsInv(s: Store, t: Store)
    requires Inv(s) && Extends(s, t) && GraphInv(t)
    ensures Inv(t) && Abs(t) == Abs(s)
  {
    hide GraphInv;
    ExtendingKeepsLocations(s, t);
    ExtendingKeepsData(s, t);
    ExtendingKeepsLookups(s, t);
  }

  // ---- new components ------------------------------------------------------------------------

  function WithComponent(s: Store, info: ComponentInfo): Store {
    var id := |s.components|;
    s.(components := s.components + [info],
       sparseSets := if info.storage == InSparseSet then s.sparseSets[id := SparseSet([], [], map[])] else s.sparseSets)
  }

  lemma ArchetypeSurvivesNewComponent(s: Store, info: ComponentInfo, a: Archetype)
    requires ArchetypeWf(s.components, s.tables, s.tableIds, a)
    ensures ArchetypeWf(s.components + [info], s.tables, s.tableIds, a)
  {
  }

  lemma NewComponentKeepsGraph(s: Store, info: ComponentInfo)
    requires GraphInv(s)
    ensures GraphInv(WithComponent(s, info))
  {
    hide ArchetypeWf, TablesCanonical, ByComponentsExact, EdgesExact;
    forall a | 0 <= a < |s.archetypes|
      ensures ArchetypeWf(s.components + [info], s.tables, s.tableIds, s.archetypes[a])
    {
      ArchetypeSurvivesNewComponent(s, info, s.archetypes[a]);
    }
  }

  lemma UnregisteredIsNowhere(s: Store, c: ComponentId)
    requires ArchetypesWf(s)
    requires |s.components| <= c
    ensures forall a :: 0 <= a < |s.archetypes| ==>
              c !in s.archetypes[a].ComponentSet()
              && s.archetypes[a].tableId < |s.tables| && c !in s.tables[s.archetypes[a].tableId].columns
  {
    forall a | 0 <= a < |s.archetypes|
      ensures c !in s.archetypes[a].ComponentSet()
              && s.archetypes[a].tableId < |s.tables| && c !in s.tables[s.archetypes[a].tableId].columns
    {
      assert ArchetypeWf(s.components, s.tables, s.tableIds, s.archetypes[a]);
      StorageDecides(s.components, s.archetypes[a]);
      assert c !in ToSet(TableComponents(s.archetypes[a]));
    }
  }

  lemma NewComponentKeepsData(s: Store, info: ComponentInfo)
    requires ArchetypesWf(s) && ArchetypeSide(s.archetypes, s.meta, {}) && DataInv(s)
    ensures DataInv(WithComponent(s, info))
  {
    var t := WithComponent(s, info);
    hide ArchetypesWf, TablesWf, InitialisedExcept, AllocatorWf, Archetype.ComponentSet;
    UnregisteredIsNowhere(s, |s.components|);
    forall c | c in t.sparseSets
      ensures SetSide(t.archetypes, t.meta, c, t.sparseSets[c], {})
    {
      if c in s.sparseSets {
        assert SetSide(s.archetypes, s.meta, c, s.sparseSets[c], {});
      }
    }
  }

  lemma NewComponentKeepsInv(s: Store, info: ComponentInfo)
    requires Inv(s)
    ensures Inv(WithComponent(s, info)) && Abs(WithComponent(s, info)) == Abs(s)
  {
    var t := WithComponent(s, info);
    NewComponentKeepsGraph(s, info);
    NewComponentKeepsData(s, info);
    hide ArchetypesWf, BundlesWf, TablesCanonical, ByComponentsExact, EdgesExact, DataInv;
    NewComponentLookups(s, info);
    hide Lookup, Coherent;
    NewComponentAbs(s, info);
  }

  lemma NewComponentAbs(s: Store, info: ComponentInfo)
    requires forall e, c :: Lookup(WithComponent(s, info), e, c) == Lookup(s, e, c)
    requires forall e :: Lookup(s, e, |s.components|).None?
    ensures Abs(WithComponent(s, info)) == Abs(s)
  {
    hide Lookup, Alive;
    var t := WithComponent(s, info);
    forall e | e in Alive(s.meta)
      ensures ComponentsOf(t, e) == ComponentsOf(s, e)
    {
    }
  }

  lemma NewComponentLookups(s: Store, info: ComponentInfo)
    requires ArchetypesWf(s) && ArchetypeSide(s.archetypes, s.meta, {})
    ensures forall e, c :: Lookup(WithComponent(s, info), e, c) == Lookup(s, e, c)
    ensures forall e :: Lookup(s, e, |s.components|).None?
  {
    UnregisteredIsNowhere(s, |s.components|);
    hide ArchetypesWf;
  }

  // ---- new bundles -----------------------------------------------------------------------------

  lemma NewBundleKeepsInv(s: Store, ids: seq<ComponentId>)
    requires Inv(s)
    requires NoDuplicates(ids) && forall k :: 0 <= k < |ids| ==> ids[k] < |s.components|
    ensures Inv(s.(bundles := s.bundles + [ids])) && Abs(s.(bundles := s.bundles + [ids])) == Abs(s)
  {
    hide ArchetypesWf, TablesCanonical, ByComponentsExact, Coherent, DataInv;
    var t := s.(bundles := s.bundles + [ids]);
    forall a | 0 <= a < |s.archetypes|
      ensures EdgesOfExact(t.archetypes, t.bundles, a, t.archetypes[a].edges)
    {
      assert EdgesOfExact(s.archetypes, s.bundles, a, s.archetypes[a].edges);
    }
    assert EdgesExact(t.archetypes, t.bundles);
    SameButBundles(s, t);
  }

  lemma SameButBundles(s: Store, t: Store)
    requires t == s.(bundles := t.bundles)
    ensures Coherent(s) ==> Coherent(t)
    ensures DataInv(s) ==> DataInv(t)
    ensures ArchetypesWf(s) ==> ArchetypesWf(t)
    ensures Abs(t) == Abs(s)
  {
    hide ArchetypeWf, ArchetypeSide, TableSide, SparseSide, SparseSetsWf, AllocatorWf;
    assert forall e, c :: Lookup(t, e, c) == Lookup(s, e, c);
    forall e | e in Alive(s.meta)
      ensures ComponentsOf(t, e) == ComponentsOf(s, e)
    {
    }
  }

  lemma ExtendedAbs(s: Store, t: Store)
    requires Inv(s) && Extends(s, t)
    ensures Abs(t) == Abs(s)
  {
    hide GraphInv, DataInv;
    ExtendingKeepsLookups(s, t);
  }
}
