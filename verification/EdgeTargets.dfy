/** The arithmetic of edges: which component lists a bundle adds to or removes from an archetype. */
module EdgeTargets {
  import opened Collections
  import opened Storage
  import opened Locations
  import opened Stores
  import opened Graph

  /** The components of `ids` that are kept in storage `st`. */
  function OfStorage(infos: seq<ComponentInfo>, ids: set<ComponentId>, st: StorageType): set<ComponentId> {
    set c | c in ids && c < |infos| && infos[c].storage == st
  }

  /** Appending the current components to the new ones and sorting gives the union, sorted. */
  lemma MergeSorted(fresh_: seq<ComponentId>, current: seq<ComponentId>)
    requires NoDuplicates(fresh_) && StrictlySorted(current)
    requires forall c :: c in fresh_ ==> c !in current
    ensures NoDuplicates(fresh_ + current)
    ensures StrictlySorted(Sort(fresh_ + current))
    ensures ToSet(Sort(fresh_ + current)) == ToSet(fresh_) + ToSet(current)
  {
    forall i, j | 0 <= i < j < |fresh_ + current|
      ensures (fresh_ + current)[i] != (fresh_ + current)[j]
    {
      if i < |fresh_| <= j {
        assert (fresh_ + current)[i] in fresh_ && (fresh_ + current)[j] in current;
      }
    }
    assert ToSet(fresh_ + current) == ToSet(fresh_) + ToSet(current);
  }

  lemma StoredAsFromSet(infos: seq<ComponentInfo>, ids: seq<ComponentId>, st: StorageType)
    requires ToSet(ids) <= OfStorage(infos, ToSet(ids), st)
    ensures StoredAs(infos, ids, st)
  {
    forall k | 0 <= k < |ids|
      ensures ids[k] < |infos| && infos[ids[k]].storage == st
    {
      assert ids[k] in ToSet(ids);
      assert ids[k] in OfStorage(infos, ToSet(ids), st);
    }
  }

  /** The component lists of an archetype are sorted and stored as their names say. */
  lemma ListsOfArchetype(s: Store, a: nat)
    requires GraphInv(s) && a < |s.archetypes|
    ensures var x := s.archetypes[a];
            && StrictlySorted(TableComponents(x)) && StrictlySorted(SparseComponents(x))
            && StoredAs(s.components, TableComponents(x), InTable)
            && StoredAs(s.components, SparseComponents(x), InSparseSet)
            && ToSet(TableComponents(x)) == OfStorage(s.components, x.ComponentSet(), InTable)
            && ToSet(SparseComponents(x)) == OfStorage(s.components, x.ComponentSet(), InSparseSet)
            && x.ComponentSet() == ToSet(TableComponents(x)) + ToSet(SparseComponents(x))
            && x.tableId < |s.tables| && s.tables[x.tableId].columns.Keys == ToSet(TableComponents(x))
            && CanonicalTable(s.tableIds, TableComponents(x), x.tableId)
            && (forall c :: c in x.ComponentSet() ==> c < |s.components|)
  {
    hide BundlesWf, TablesCanonical, ByComponentsExact, EdgesExact;
    var x := s.archetypes[a];
    assert ArchetypeWf(s.components, s.tables, s.tableIds, x);
    hide ArchetypesWf;
    StorageDecides(s.components, x);
    ComponentSetSplits(x);
    StoredAsFromSet(s.components, TableComponents(x), InTable);
    StoredAsFromSet(s.components, SparseComponents(x), InSparseSet);
  }

  /** An archetype found under a pair of component lists has the union of them as its component set. */
  lemma FoundArchetype(s: Store, key: (seq<ComponentId>, seq<ComponentId>))
    requires GraphInv(s) && key in s.byComponents
    ensures s.byComponents[key] < |s.archetypes|
    ensures s.archetypes[s.byComponents[key]].ComponentSet() == ToSet(key.0) + ToSet(key.1)
    ensures TableComponents(s.archetypes[s.byComponents[key]]) == key.0
  {
    hide ArchetypesWf, BundlesWf, TablesCanonical, EdgesExact;
    ComponentSetSplits(s.archetypes[s.byComponents[key]]);
  }

  lemma UnionByStorage(infos: seq<ComponentInfo>, here: set<ComponentId>, bundle: seq<ComponentId>)
    requires forall c :: c in here ==> c < |infos|
    requires forall k :: 0 <= k < |bundle| ==> bundle[k] < |infos|
    ensures var added := ToSet(Without(bundle, here));
            OfStorage(infos, added, InTable) + OfStorage(infos, here, InTable)
            + (OfStorage(infos, added, InSparseSet) + OfStorage(infos, here, InSparseSet))
            == here + ToSet(bundle)
  {
    forall c | c in here + ToSet(bundle)
      ensures c < |infos| && (infos[c].storage == InTable || infos[c].storage == InSparseSet)
    {
    }
  }

  lemma DifferenceByStorage(infos: seq<ComponentInfo>, here: set<ComponentId>, bundle: set<ComponentId>)
    requires forall c :: c in here ==> c < |infos|
    ensures (OfStorage(infos, here, InTable) - bundle) + (OfStorage(infos, here, InSparseSet) - bundle) == here - bundle
  {
    forall c | c in here
      ensures infos[c].storage == InTable || infos[c].storage == InSparseSet
    {
    }
  }

  /** One round of the loop of `add_bundle_to_archetype` for a component the archetype does not have. */
  lemma AddedGrows(infos: seq<ComponentInfo>, here: set<ComponentId>, bundle: seq<ComponentId>, k: nat,
                   fresh_: seq<ComponentId>, st: StorageType)
    requires NoDuplicates(bundle) && k < |bundle| && bundle[k] < |infos| && bundle[k] !in here
    requires NoDuplicates(fresh_) && ToSet(fresh_) == OfStorage(infos, ToSet(Without(bundle[..k], here)), st)
    ensures Without(bundle[..k + 1], here) == Without(bundle[..k], here) + [bundle[k]]
    ensures var next := if infos[bundle[k]].storage == st then fresh_ + [bundle[k]] else fresh_;
            NoDuplicates(next) && ToSet(next) == OfStorage(infos, ToSet(Without(bundle[..k + 1], here)), st)
  {
    assert bundle[..k + 1] == bundle[..k] + [bundle[k]];
    WithoutSnoc(bundle[..k], bundle[k], here);
    var added := Without(bundle[..k], here);
    assert ToSet(added + [bundle[k]]) == ToSet(added) + {bundle[k]};
    assert ToSet(fresh_ + [bundle[k]]) == ToSet(fresh_) + {bundle[k]};
    assert bundle[k] !in ToSet(bundle[..k]);
    assert forall c :: c in fresh_ ==> c in ToSet(fresh_);
  }

  lemma NothingAdded(infos: seq<ComponentInfo>, here: set<ComponentId>, bundle: seq<ComponentId>)
    requires forall k :: 0 <= k < |bundle| ==> bundle[k] < |infos|
    requires OfStorage(infos, ToSet(Without(bundle, here)), InTable) == {}
    requires OfStorage(infos, ToSet(Without(bundle, here)), InSparseSet) == {}
    ensures here + ToSet(bundle) == here
  {
    forall c | c in ToSet(bundle)
      ensures c in here
    {
      var added := ToSet(Without(bundle, here));
      assert c !in here ==> c in added;
      assert c < |infos| && (infos[c].storage == InTable || infos[c].storage == InSparseSet);
      assert c in added ==> c in OfStorage(infos, added, InTable) || c in OfStorage(infos, added, InSparseSet);
    }
  }

  /** The merged list of one storage kind, as `get_id_or_insert` needs it. */
  lemma MergeFresh(infos: seq<ComponentInfo>, here: set<ComponentId>, bundle: seq<ComponentId>,
                   fresh_: seq<ComponentId>, current: seq<ComponentId>, st: StorageType)
    requires NoDuplicates(fresh_) && StrictlySorted(current)
    requires ToSet(fresh_) == OfStorage(infos, ToSet(Without(bundle, here)), st)
    requires ToSet(current) == OfStorage(infos, here, st)
    ensures NoDuplicates(fresh_ + current)
    ensures StrictlySorted(Sort(fresh_ + current))
    ensures ToSet(Sort(fresh_ + current)) == ToSet(fresh_) + ToSet(current)
    ensures StoredAs(infos, Sort(fresh_ + current), st)
  {
    assert forall c :: c in fresh_ ==> c in ToSet(fresh_);
    assert forall c :: c in current ==> c in ToSet(current);
    MergeSorted(fresh_, current);
    StoredAsFromSet(infos, Sort(fresh_ + current), st);
  }

  lemma CachedAddEdge(s: Store, a: nat, b: nat)
    requires GraphInv(s) && a < |s.archetypes| && b in s.archetypes[a].edges.addBundle
    ensures b < |s.bundles| && AddEdgeExact(s.archetypes, a, s.bundles[b], s.archetypes[a].edges.addBundle[b])
  {
    hide ArchetypesWf, BundlesWf, TablesCanonical, ByComponentsExact, AddEdgeExact;
    assert EdgesOfExact(s.archetypes, s.bundles, a, s.archetypes[a].edges);
  }

  lemma CachedRemoval(s: Store, a: nat, b: nat, intersection: bool)
    requires GraphInv(s) && a < |s.archetypes|
    requires var edges := s.archetypes[a].edges; b in if intersection then edges.removeBundle else edges.takeBundle
    ensures b < |s.bundles|
    ensures var edges := s.archetypes[a].edges;
            var target := if intersection then edges.removeBundle[b] else edges.takeBundle[b];
            && (target.None? <==> !intersection && !(ToSet(s.bundles[b]) <= s.archetypes[a].ComponentSet()))
            && (target.Some? ==> RemoveEdgeExact(s.archetypes, a, s.bundles[b], target))
  {
    KnownEdges(s, a);
    hide GraphInv;
  }

  lemma KnownEdges(s: Store, a: nat)
    requires GraphInv(s) && a < |s.archetypes|
    ensures EdgesOfExact(s.archetypes, s.bundles, a, s.archetypes[a].edges)
  {
    hide ArchetypesWf, BundlesWf, TablesCanonical, ByComponentsExact, EdgesOfExact;
  }

  lemma BundleIsWf(s: Store, b: nat)
    requires GraphInv(s) && b < |s.bundles|
    ensures NoDuplicates(s.bundles[b]) && forall k :: 0 <= k < |s.bundles[b]| ==> s.bundles[b][k] < |s.components|
  {
    hide ArchetypesWf, EdgesExact, TablesCanonical, ByComponentsExact;
  }

  lemma NamedTable(s: Store, ids: seq<ComponentId>)
    requires GraphInv(s) && ids in s.tableIds
    ensures 0 < s.tableIds[ids] < |s.tables| && s.tables[s.tableIds[ids]].columns.Keys == ToSet(ids)
    ensures CanonicalTable(s.tableIds, ids, s.tableIds[ids])
  {
    hide ArchetypesWf, EdgesExact, BundlesWf, ByComponentsExact;
  }

  lemma RemovedGrows(infos: seq<ComponentInfo>, here: set<ComponentId>, bundle: seq<ComponentId>, k: nat,
                     removed: seq<ComponentId>, st: StorageType)
    requires NoDuplicates(bundle) && k < |bundle| && bundle[k] < |infos| && bundle[k] in here
    requires NoDuplicates(removed) && ToSet(removed) == OfStorage(infos, ToSet(bundle[..k]) * here, st)
    ensures var next := if infos[bundle[k]].storage == st then removed + [bundle[k]] else removed;
            NoDuplicates(next) && ToSet(next) == OfStorage(infos, ToSet(bundle[..k + 1]) * here, st)
  {
    assert bundle[..k + 1] == bundle[..k] + [bundle[k]];
    assert ToSet(bundle[..k + 1]) == ToSet(bundle[..k]) + {bundle[k]};
    assert ToSet(removed + [bundle[k]]) == ToSet(removed) + {bundle[k]};
    assert bundle[k] !in ToSet(bundle[..k]);
    assert forall c :: c in removed ==> c in ToSet(removed);
  }

  /** What is left of one component list after the removed components are taken out. */
  lemma LessRemoved(infos: seq<ComponentInfo>, here: set<ComponentId>, bundle: seq<ComponentId>,
                    current: seq<ComponentId>, removed: seq<ComponentId>, st: StorageType)
    requires StrictlySorted(current) && StoredAs(infos, current, st)
    requires ToSet(current) == OfStorage(infos, here, st)
    requires NoDuplicates(removed) && ToSet(removed) == OfStorage(infos, ToSet(bundle) * here, st)
    ensures var kept := Without(current, ToSet(Sort(removed)));
            && StrictlySorted(kept) && StoredAs(infos, kept, st)
            && ToSet(kept) == OfStorage(infos, here, st) - ToSet(bundle)
            && (removed == [] ==> kept == current)
  {
    var kept := Without(current, ToSet(Sort(removed)));
    WithoutKeepsOrder(current, ToSet(Sort(removed)));
    forall k | 0 <= k < |kept|
      ensures kept[k] < |infos| && infos[kept[k]].storage == st
    {
      assert kept[k] in current;
    }
    if removed == [] {
      SortedListsAreCanonical(kept, current);
    }
  }

  // ---- when a removal splits the empty table -------------------------------------------------

  /**
    Archetype `a` has table components, `bundle` takes all of them, and no archetype has what is left. The new
    archetype then gets the table registered for the empty list, which is never table 0.
   */
  ghost predicate SplitsEmptyTable(s: Store, a: nat, bundle: set<ComponentId>) {
    && a < |s.archetypes|
    && var here := s.archetypes[a].ComponentSet();
    && IsNewSet(s.archetypes, here - bundle)
    && OfStorage(s.components, here, InTable) != {}
    && OfStorage(s.components, here, InTable) <= bundle
  }

  ghost predicate IsNewSet(archetypes: seq<Archetype>, ids: set<ComponentId>) {
    forall k :: 0 <= k < |archetypes| ==> archetypes[k].ComponentSet() != ids
  }

  lemma AllOfStorageGo(infos: seq<ComponentInfo>, here: set<ComponentId>, bundle: set<ComponentId>, st: StorageType)
    ensures OfStorage(infos, bundle * here, st) != {} && OfStorage(infos, here, st) - bundle == {}
            <==> OfStorage(infos, here, st) != {} && OfStorage(infos, here, st) <= bundle
  {
    var all := OfStorage(infos, here, st);
    assert OfStorage(infos, bundle * here, st) == all * bundle;
    hide OfStorage;
    assert all - bundle == {} <==> all <= bundle by {
      assert forall c :: c in all && c !in bundle ==> c in all - bundle;
    }
    assert all <= bundle ==> all * bundle == all;
  }

  /** The archetype found for a component set is new exactly if no archetype had that set. */
  lemma NewTargetIff(s: Store, t: Store, target: nat)
    requires GraphInv(t) && Extends(s, t) && target < |t.archetypes|
    ensures target < |s.archetypes| <==> !IsNewSet(s.archetypes, t.archetypes[target].ComponentSet())
  {
    hide BundlesWf, TablesCanonical, EdgesExact, ByComponentsExact, ArchetypesWf, Archetype.ComponentSet;
    if target < |s.archetypes| {
      SameComponentSets(s, t, target);
      assert s.archetypes[target].ComponentSet() == t.archetypes[target].ComponentSet();
    } else if k :| 0 <= k < |s.archetypes| && s.archetypes[k].ComponentSet() == t.archetypes[target].ComponentSet() {
      SameComponentSets(s, t, k);
      OneArchetypePerComponentSet(t, k, target);
    }
  }

  /** A removal that leads back to the archetype it starts from splits nothing. */
  lemma StayingSplitsNothing(s: Store, a: nat, bundle: set<ComponentId>)
    requires a < |s.archetypes| && s.archetypes[a].ComponentSet() - bundle == s.archetypes[a].ComponentSet()
    ensures !SplitsEmptyTable(s, a, bundle)
  {
    assert s.archetypes[a].ComponentSet() == s.archetypes[a].ComponentSet() - bundle;
    assert !IsNewSet(s.archetypes, s.archetypes[a].ComponentSet() - bundle);
  }

  lemma EmptyTableList(s: Store, a: nat)
    requires GraphInv(s) && a < |s.archetypes|
    ensures ToSet(TableComponents(s.archetypes[a])) == {} && s.archetypes[a].tableId != 0 ==>
              EmptyTableSplit(s.archetypes)
  {
    if ToSet(TableComponents(s.archetypes[a])) == {} {
      EmptyImage(TableComponents(s.archetypes[a]));
    }
  }
}
