/** What removing a bundle from an entity, or despawning it, does to a world, step by step. */
module Removers {
  import opened Collections
  import opened Storage
  import opened Locations
  import opened Stores
  import opened Graph
  import opened ArchetypeIds
  import opened Moves
  import opened Writes
  import opened EdgeTargets
  import opened Effects
  import opened Removals
  import opened Triggers
  import opened Inserters
  import opened Semantics

  /** The sparse sets hold entity `e` for exactly the sparse components among `here`. */
  ghost predicate SetsHold(s: Store, e: Entity, here: set<ComponentId>) {
    && (forall c :: c in s.sparseSets ==>
          && c < |s.components| && s.components[c].storage == InSparseSet && s.sparseSets[c].Wf()
          && (e.index in s.sparseSets[c].sparse <==> c in here)
          && (e.index in s.sparseSets[c].sparse ==> s.sparseSets[c].Owner(e.index) == Some(e)))
    && (forall c :: c in here && c < |s.components| && s.components[c].storage == InSparseSet ==> c in s.sparseSets)
  }

  lemma TablesAgree(s: Store, e: nat)
    requires Coherent(s) && At(s.meta, e).Some?
    ensures At(s.meta, e).value.archetypeId < |s.archetypes|
    ensures At(s.meta, e).value.tableId == s.archetypes[At(s.meta, e).value.archetypeId].tableId
  {
    hide TableSide;
    assert InArchetypeRow(s.archetypes, s.meta, e);
  }

  lemma NothingRemoved(s: Store, e: Entity, here: set<ComponentId>)
    requires SetsHold(s, e, here)
    ensures SetsRemoved(s.sparseSets, s.sparseSets, e, {})
  {
    hide SparseSet.Wf, SparseSet.Owner;
  }

  /** The events of one more round of the loop. */
  lemma EventsSnoc(e: Entity, bundle: seq<ComponentId>, k: nat, here: set<ComponentId>)
    requires k < |bundle|
    ensures RemovedEvents(e, Within(bundle[..k + 1], here))
            == RemovedEvents(e, Within(bundle[..k], here)) + if bundle[k] in here then [(bundle[k], e)] else []
    ensures ToSet(bundle[..k + 1]) == ToSet(bundle[..k]) + {bundle[k]}
  {
    assert bundle[..k + 1][..k] == bundle[..k];
    assert bundle[..k + 1] == bundle[..k] + [bundle[k]];
    var more := if bundle[k] in here then [bundle[k]] else [];
    assert Within(bundle[..k + 1], here) == Within(bundle[..k], here) + more;
    assert RemovedEvents(e, Within(bundle[..k], here) + more)
        == RemovedEvents(e, Within(bundle[..k], here)) + if bundle[k] in here then [(bundle[k], e)] else [];
  }

  lemma NoEvents(e: Entity, here: set<ComponentId>)
    ensures Within([], here) == [] && RemovedEvents(e, []) == []
  {
  }

  lemma NothingDropped(s: Store, e: Entity, bundle: seq<ComponentId>, here: set<ComponentId>)
    requires SetsHold(s, e, here)
    ensures SetsRemoved(s.sparseSets, s.sparseSets, e, ToSet(bundle[..0]))
    ensures RemovedEvents(e, Within(bundle[..0], here)) == []
  {
    NothingRemoved(s, e, here);
    NoEvents(e, here);
    hide SetsRemoved, SetsHold;
    assert bundle[..0] == [] && ToSet(bundle[..0]) == {};
  }

  lemma DropStep(s: Store, sets: map<ComponentId, SparseSet>, e: Entity, here: set<ComponentId>, gone: set<ComponentId>,
                 c: ComponentId)
    requires SetsHold(s, e, here) && SetsRemoved(s.sparseSets, sets, e, gone)
    requires c in here && c < |s.components| && s.components[c].storage == InSparseSet
    ensures c in sets && sets[c].Wf()
    ensures e.index in sets[c].sparse ==> sets[c].Owner(e.index) == Some(e)
    ensures SetsRemoved(s.sparseSets, sets[c := sets[c].Remove(e)], e, gone + {c})
  {
    assert c in s.sparseSets;
    hide SetsRemoved, SparseSet.Wf, SparseSet.Owner, SparseSet.Remove;
    RemoveFromSet(s.sparseSets, sets, e, gone, c);
  }

  lemma KeepStep(s: Store, sets: map<ComponentId, SparseSet>, e: Entity, here: set<ComponentId>, gone: set<ComponentId>,
                 c: ComponentId)
    requires SetsHold(s, e, here) && SetsRemoved(s.sparseSets, sets, e, gone)
    requires c < |s.components| && (c !in here || s.components[c].storage == InTable)
    ensures SetsRemoved(s.sparseSets, sets, e, gone + {c})
  {
    hide SparseSet.Wf, SparseSet.Owner, SameElsewhere;
  }

  /** A live entity: what it has is what its archetype lists, in the sparse sets too. */
  lemma EntityHas(s: Store, e: Entity)
    requires Inv(s) && EntitiesGet(s.meta, e).Some?
    ensures e in Abs(s) && e == EntityAt(s, e.index)
    ensures EntitiesGet(s.meta, e).value.archetypeId < |s.archetypes|
    ensures var here := s.archetypes[EntitiesGet(s.meta, e).value.archetypeId].ComponentSet();
            Abs(s)[e].Keys == here && SetsHold(s, e, here)
  {
    InAlive(s.meta, e);
    LookupMatchesArchetype(s, e, 0);
    ComponentsOfMatchArchetype(s, e);
    InvParts(s);
    hide Inv, GraphInv, Coherent, ComponentsOf, Lookup;
    HasSets(s, e);
  }

  lemma HasSets(s: Store, e: Entity)
    requires DataInv(s) && EntitiesGet(s.meta, e).Some?
    requires EntitiesGet(s.meta, e).value.archetypeId < |s.archetypes|
    ensures SetsHold(s, e, s.archetypes[EntitiesGet(s.meta, e).value.archetypeId].ComponentSet())
  {
    hide InitialisedExcept, TablesWf, AllocatorWf, Archetype.ComponentSet, SparseSet.Wf, SparseSet.Owner;
    forall c | c in s.sparseSets
      ensures e.index in s.sparseSets[c].sparse
              <==> c in s.archetypes[EntitiesGet(s.meta, e).value.archetypeId].ComponentSet()
      ensures e.index in s.sparseSets[c].sparse ==> s.sparseSets[c].Owner(e.index) == Some(e)
    {
      assert SetSide(s.archetypes, s.meta, c, s.sparseSets[c], {});
      HasByArchetype(s, e.index, c);
    }
  }

  /** What the archetype graph says about a removal, and why an unchanged archetype means nothing to do. */
  ghost predicate RemovalPlanned(s: Store, e: Entity, a: nat, bundle: seq<ComponentId>, target: nat)
  {
    && e in Abs(s) && a < |s.archetypes| && target < |s.archetypes| && s.archetypes[target].tableId < |s.tables|
    && s.archetypes[a].ComponentSet() == Abs(s)[e].Keys
    && s.archetypes[target].ComponentSet() == s.archetypes[a].ComponentSet() - ToSet(bundle)
    && SetsHold(s, e, s.archetypes[a].ComponentSet()) && MovesAllowed(s)
    && (forall k :: 0 <= k < |bundle| ==> bundle[k] < |s.components|)
    && (Flag(s.archetypes[a].flags, OnRemove) <==> AnyHooked(s.components, OnRemove, s.archetypes[a].ComponentSet()))
    && (target == a <==> ToSet(bundle) !! s.archetypes[a].ComponentSet())
  }

  lemma PlanRemoval(s0: Store, s: Store, e: Entity, location: EntityLocation, bundleId: nat, target: nat)
    requires Inv(s0) && Inv(s) && Extends(s0, s)
    requires EntitiesGet(s0.meta, e) == Some(location) && location.archetypeId < |s0.archetypes|
    requires bundleId < |s.bundles| && target < |s.archetypes|
    requires s.archetypes[target].ComponentSet()
             == s0.archetypes[location.archetypeId].ComponentSet() - ToSet(s.bundles[bundleId])
    ensures RemovalPlanned(s, e, location.archetypeId, s.bundles[bundleId], target)
    ensures EntitiesGet(s.meta, e) == Some(location)
  {
    hide Inv, SetsHold, MovesAllowed, Abs, Archetype.ComponentSet, FlagsExact, ComponentsRegistered, AnyHooked;
    hide EntityAt, NoDuplicates;
    var a, bundle := location.archetypeId, s.bundles[bundleId];
    SameComponentSets(s0, s, a);
    assert s.meta == s0.meta && a < |s.archetypes|;
    hide Extends;
    EntityHas(s, e);
    InvAllowsMoves(s);
    ArchetypeFlags(s, a);
    FlagIsAnyHooked(s.components, s.archetypes[a], OnRemove);
    InvParts(s);
    hide GraphInv, Coherent, DataInv;
    GraphColumns(s, target, 0);
    BundleIsWf(s, bundleId);
    UnchangedArchetype(s, a, target, ToSet(bundle));
  }

  lemma UnchangedArchetype(s: Store, a: nat, target: nat, bundle: set<ComponentId>)
    requires GraphInv(s) && a < |s.archetypes| && target < |s.archetypes|
    requires s.archetypes[target].ComponentSet() == s.archetypes[a].ComponentSet() - bundle
    ensures target == a <==> bundle !! s.archetypes[a].ComponentSet()
  {
    hide ArchetypesWf, ByComponentsExact, EdgesExact, TablesCanonical, BundlesWf, Archetype.ComponentSet;
    var here := s.archetypes[a].ComponentSet();
    if bundle !! here {
      assert here - bundle == here;
      OneArchetypePerComponentSet(s, target, a);
    } else {
      var c :| c in bundle && c in here;
      assert c !in here - bundle;
    }
  }

  lemma NothingToRemove(s: Store, e: Entity, a: nat, bundle: seq<ComponentId>)
    requires RemovalPlanned(s, e, a, bundle, a)
    ensures Abs(s) == Abs(s)[e := Abs(s)[e] - ToSet(bundle)]
    ensures RemoveTriggers(s.components, e, bundle, Abs(s)[e].Keys) == []
    ensures RemovedEvents(e, Within(bundle, Abs(s)[e].Keys)) == []
  {
    hide SetsHold, MovesAllowed, Archetype.ComponentSet, Within;
    var m := Abs(s)[e];
    WithinNothing(bundle, m.Keys);
    NoEvents(e, m.Keys);
    assert m - ToSet(bundle) == m;
  }

  lemma DroppingAllowsMoves(s: Store, sets: map<ComponentId, SparseSet>)
    requires MovesAllowed(s)
    ensures MovesAllowed(s.(sparseSets := sets))
  {
    hide ArchetypeSide, TableSide, TablesWf, InitialisedExcept;
  }

  lemma RemoveSettles(s: Store, sets: map<ComponentId, SparseSet>, t: Store, e: Entity, a: nat, b: nat,
                      gone: set<ComponentId>)
    requires Inv(s) && EntitiesGet(s.meta, e).Some? && EntitiesGet(s.meta, e).value.archetypeId == a
    requires a < |s.archetypes| && b < |s.archetypes|
    requires s.archetypes[b].ComponentSet() == s.archetypes[a].ComponentSet() - gone
    requires SetsRemoved(s.sparseSets, sets, e, gone)
    requires MovedTo(s.(sparseSets := sets), t, e.index, b)
    ensures Inv(t) && SameComponents(s.archetypes, t.archetypes)
    ensures t.components == s.components && t.bundles == s.bundles
    ensures e in Abs(s) && Abs(t) == Abs(s)[e := Abs(s)[e] - gone]
    ensures EntitiesGet(t.meta, e) == At(t.meta, e.index)
    ensures (EmptyTableSplit(t.archetypes) <==> EmptyTableSplit(s.archetypes)) && NoneFreed(s.meta, t.meta)
  {
    var s' := s.(sparseSets := sets);
    MovingFreesNone(s', t, e.index, b);
    SameShapeSplit(s', t);
    assert e == EntityAt(s, e.index);
    RemoveEffect(s, t, e.index, a, b, gone, sets);
    hide Inv, Abs, SetsRemoved, RowCarried, OthersKept, InitialisedExcept, Coherent, Archetype.ComponentSet;
    assert SameShape(s', t);
    forall k | 0 <= k < |s.archetypes|
      ensures t.archetypes[k].components == s.archetypes[k].components
    {
      SameShapeArchetype(s', t, k);
    }
  }

  // ---- taking values out -------------------------------------------------------------------

  /** The storage of component `c` really holds a value for `e`, and it is the one a lookup finds. */
  ghost predicate Readable(s: Store, e: Entity, location: EntityLocation, c: ComponentId) {
    && c < |s.components|
    && (s.components[c].storage == InTable ==>
          && location.tableId < |s.tables| && c in s.tables[location.tableId].columns
          && location.tableRow < |s.tables[location.tableId].columns[c]|
          && s.tables[location.tableId].columns[c][location.tableRow].Init?
          && Lookup(s, e, c) == Some(s.tables[location.tableId].columns[c][location.tableRow].cell))
    && (s.components[c].storage == InSparseSet ==>
          && c in s.sparseSets && s.sparseSets[c].Get(e.index).Some?
          && Lookup(s, e, c) == s.sparseSets[c].Get(e.index))
  }

  lemma PresentIsReadable(s: Store, e: Entity, location: EntityLocation, c: ComponentId)
    requires Inv(s) && EntitiesGet(s.meta, e) == Some(location)
    requires location.archetypeId < |s.archetypes| && c in s.archetypes[location.archetypeId].ComponentSet()
    ensures Readable(s, e, location, c)
  {
    hide Inv, Archetype.ComponentSet;
    LookupMatchesArchetype(s, e, c);
  }

  lemma TakeStep(s: Store, sets: map<ComponentId, SparseSet>, e: Entity, bundle: seq<ComponentId>, k: nat)
    requires k < |bundle| && SetsRemoved(s.sparseSets, sets, e, ToSet(bundle[..k]))
    requires NoDuplicates(bundle) && bundle[k] in s.sparseSets
    ensures bundle[k] in sets && sets[bundle[k]] == s.sparseSets[bundle[k]]
  {
    hide SameElsewhere, SparseSet.Wf, SparseSet.Get;
    NotBefore(bundle, k);
  }

  /** The values of the bundle's components, in bundle order. */
  ghost predicate ReadOut(m: Components, bundle: seq<ComponentId>, values: seq<Value>) {
    && |values| == |bundle|
    && forall k :: 0 <= k < |bundle| ==> bundle[k] in m && values[k] == m[bundle[k]].value
  }

  lemma TakenValues(s: Store, e: Entity, bundle: seq<ComponentId>, values: seq<Value>)
    requires e in Abs(s) && ToSet(bundle) <= Abs(s)[e].Keys && |values| == |bundle|
    requires forall k :: 0 <= k < |bundle| ==>
               Lookup(s, e, bundle[k]).Some? && values[k] == Lookup(s, e, bundle[k]).value.value
    ensures ReadOut(Abs(s)[e], bundle, values)
  {
    forall k | 0 <= k < |bundle|
      ensures bundle[k] in Abs(s)[e] && values[k] == Abs(s)[e][bundle[k]].value
    {
      assert bundle[k] in ToSet(bundle);
      FindLookup(s, e, bundle[k]);
    }
  }

  // ---- despawning --------------------------------------------------------------------------

  function Ids(cs: seq<ArchetypeComponent>): seq<ComponentId> {
    seq(|cs|, k requires 0 <= k < |cs| => cs[k].id)
  }

  lemma {:induction false} SameStorageSorted(cs: seq<ArchetypeComponent>, st: StorageType, i: nat, j: nat)
    requires i < j < |cs| && cs[i].storage == st && cs[j].storage == st
    requires StrictlySorted(WithStorage(cs, st))
    ensures cs[i].id < cs[j].id
  {
    var list, rest := WithStorage(cs, st), WithStorage(cs[1..], st);
    var head := if cs[0].storage == st then [cs[0].id] else [];
    assert list == head + rest;
    hide WithStorage;
    if i == 0 {
      assert cs[1..][j - 1] == cs[j];
      StoredIsListed(cs[1..], st, j - 1);
      var m :| 0 <= m < |rest| && rest[m] == cs[j].id;
      assert list[0] == cs[0].id && list[m + 1] == cs[j].id;
    } else {
      assert StrictlySorted(rest) by {
        forall x, y | 0 <= x < y < |rest|
          ensures rest[x] < rest[y]
        {
          assert list[x + |head|] == rest[x] && list[y + |head|] == rest[y];
        }
      }
      SameStorageSorted(cs[1..], st, i - 1, j - 1);
    }
  }

  lemma StoredIsListed(cs: seq<ArchetypeComponent>, st: StorageType, k: nat)
    requires k < |cs| && cs[k].storage == st
    ensures cs[k].id in WithStorage(cs, st)
  {
    WithStorageMembers(cs, st);
    assert cs[k].id in ToSet(WithStorage(cs, st));
  }

  /** An archetype lists no component twice. */
  lemma ArchetypeListsOnce(infos: seq<ComponentInfo>, a: Archetype)
    requires ComponentsRegistered(infos, a)
    requires StrictlySorted(TableComponents(a)) && StrictlySorted(SparseComponents(a))
    ensures NoDuplicates(Ids(a.components)) && ToSet(Ids(a.components)) == a.ComponentSet()
  {
    var cs := a.components;
    forall i, j | 0 <= i < j < |cs|
      ensures cs[i].id != cs[j].id
    {
      if cs[i].storage == cs[j].storage {
        SameStorageSorted(cs, cs[i].storage, i, j);
      }
    }
    forall c
      ensures c in Ids(cs) <==> c in a.ComponentSet()
    {
      if c in a.ComponentSet() {
        var k :| 0 <= k < |cs| && cs[k].id == c;
        assert Ids(cs)[k] == c;
      }
    }
  }

  /** `despawn` frees the index before it patches the swapped entities; `Despawned` forgets it last. The two agree. */
  lemma FreeingFirst(s: Store, e: nat, sets: map<ComponentId, SparseSet>)
    requires Coherent(s) && TablesWf(s.tables)
    requires At(s.meta, e).Some? && 1 <= s.meta[e].generation <= MAX_GENERATION
    ensures var l := At(s.meta, e).value;
            var freed := s.meta[e := EntityMeta(NextGeneration(s.meta[e].generation), None)];
            && l.archetypeId < |s.archetypes| && l.archetypeRow < |s.archetypes[l.archetypeId].entities|
            && l.tableId == s.archetypes[l.archetypeId].tableId
            && l.tableId < |s.tables| && l.tableRow < |s.tables[l.tableId].entities|
            && s.archetypes[l.archetypeId].entities[l.archetypeRow].tableRow == l.tableRow
            && var first := ArchetypeSwapped(s.archetypes[l.archetypeId], l.archetypeRow);
               var second := s.tables[l.tableId].SwappedInto(l.tableRow);
               && (first.Some? ==> EntitiesGet(freed, first.value).Some?)
               && var meta1 := PatchArchetypeRow(freed, first, l.archetypeRow);
                  var archetypes1 := ArchetypeWithoutRow(s.archetypes, l.archetypeId, l.archetypeRow);
                  && (second.Some? ==>
                        && EntitiesGet(meta1, second.value).Some?
                        && EntitiesGet(meta1, second.value).value.archetypeId < |archetypes1|
                        && EntitiesGet(meta1, second.value).value.archetypeRow
                           < |archetypes1[EntitiesGet(meta1, second.value).value.archetypeId].entities|)
                  && Despawned(s, e, sets)
                     == s.(archetypes := PatchArchetypes(archetypes1, meta1, second, l.tableRow),
                           tables := TableWithoutRow(s.tables, l.tableId, l.tableRow),
                           meta := PatchTableRow(meta1, second, l.tableRow),
                           pending := s.pending + [e], sparseSets := sets)
  {
    var l := At(s.meta, e).value;
    var mid := OutOfArchetype(s, e);
    var first := ArchetypeSwapped(s.archetypes[l.archetypeId], l.archetypeRow);
    var second := s.tables[l.tableId].SwappedInto(l.tableRow);
    FreedEntityStands(s, e);
    var freed := EntityMeta(NextGeneration(s.meta[e].generation), None);
    hide ArchetypeSide, TableSide;
    FreeThenPatch(s.archetypes, s.meta, mid.archetypes, e, freed, first, l.archetypeRow, second, l.tableRow);
  }

  /** Neither of the two entities swapped into the rows of `e` is `e`, and both are where they say. */
  lemma FreedEntityStands(s: Store, e: nat)
    requires Coherent(s) && At(s.meta, e).Some?
    ensures var l := At(s.meta, e).value;
            && l.archetypeId < |s.archetypes| && l.archetypeRow < |s.archetypes[l.archetypeId].entities|
            && l.tableId == s.archetypes[l.archetypeId].tableId
            && l.tableId < |s.tables| && l.tableRow < |s.tables[l.tableId].entities|
            && s.archetypes[l.archetypeId].entities[l.archetypeRow].tableRow == l.tableRow
            && var first := ArchetypeSwapped(s.archetypes[l.archetypeId], l.archetypeRow);
               var second := s.tables[l.tableId].SwappedInto(l.tableRow);
               && var mid := OutOfArchetype(s, e);
               && (first.Some? ==> EntitiesGet(s.meta, first.value).Some? && first.value.index != e)
               && (second.Some? ==>
                     && EntitiesGet(mid.meta, second.value).Some? && second.value.index != e
                     && EntitiesGet(mid.meta, second.value).value.archetypeId < |mid.archetypes|
                     && EntitiesGet(mid.meta, second.value).value.archetypeRow
                        < |mid.archetypes[EntitiesGet(mid.meta, second.value).value.archetypeId].entities|)
  {
    var l := At(s.meta, e).value;
    var mid := OutOfArchetype(s, e);
    assert InArchetypeRow(s.archetypes, s.meta, e) && InTableRow(s.tables, s.meta, e);
    LeaveArchetype(s.archetypes, s.tables, s.meta, e);
    SwappedIntoTableRow(mid.tables, mid.meta, e);
    var second := s.tables[l.tableId].SwappedInto(l.tableRow);
    if second.Some? {
      assert InArchetypeRow(mid.archetypes, mid.meta, second.value.index);
    }
    hide ArchetypeSide, TableSide;
  }

  lemma FreeThenPatch(archetypes: seq<Archetype>, meta: seq<EntityMeta>, without: seq<Archetype>, e: nat,
                      freed: EntityMeta, first: Option<Entity>, row: nat, second: Option<Entity>, tableRow: nat)
    requires e < |meta|
    requires first.Some? ==> EntitiesGet(meta, first.value).Some? && first.value.index != e
    requires second.Some? ==>
               && var mid := PatchArchetypeRow(meta, first, row);
               && EntitiesGet(mid, second.value).Some? && second.value.index != e
               && EntitiesGet(mid, second.value).value.archetypeId < |without|
               && EntitiesGet(mid, second.value).value.archetypeRow
                  < |without[EntitiesGet(mid, second.value).value.archetypeId].entities|
    ensures var m := meta[e := freed];
            && (first.Some? ==> EntitiesGet(m, first.value) == EntitiesGet(meta, first.value))
            && var mid, mid' := PatchArchetypeRow(meta, first, row), PatchArchetypeRow(m, first, row);
            && mid' == mid[e := freed]
            && (second.Some? ==> EntitiesGet(mid', second.value) == EntitiesGet(mid, second.value))
            && PatchTableRow(mid', second, tableRow) == PatchTableRow(mid, second, tableRow)[e := freed]
            && PatchArchetypes(without, mid', second, tableRow) == PatchArchetypes(without, mid, second, tableRow)
  {
  }

  /** The sparse components of the archetype are all that the sparse sets can hold of the entity. */
  lemma SparseComponentsCover(s: Store, e: Entity, a: nat)
    requires Inv(s) && EntitiesGet(s.meta, e).Some? && EntitiesGet(s.meta, e).value.archetypeId == a
             && a < |s.archetypes|
    ensures forall c :: c in s.sparseSets && HasComponent(s.archetypes, s.meta, e.index, c) ==>
              c in ToSet(SparseComponents(s.archetypes[a]))
    ensures forall c :: c in ToSet(SparseComponents(s.archetypes[a])) ==>
              c in s.archetypes[a].ComponentSet() && c < |s.components| && s.components[c].storage == InSparseSet
  {
    InvParts(s);
    ArchetypeIsWf(s, a);
    StorageDecides(s.components, s.archetypes[a]);
    EntityHas(s, e);
    hide Inv, GraphInv, Coherent, DataInv, Archetype.ComponentSet, ArchetypeWf, Abs, SparseSet.Wf, SparseSet.Owner;
    forall c | c in s.sparseSets && HasComponent(s.archetypes, s.meta, e.index, c)
      ensures c in ToSet(SparseComponents(s.archetypes[a]))
    {
      HasByArchetype(s, e.index, c);
    }
  }

  lemma TakingSomething(bundle: seq<ComponentId>, here: set<ComponentId>)
    requires ToSet(bundle) <= here
    ensures ToSet(bundle) !! here <==> bundle == []
  {
    if bundle != [] {
      assert bundle[0] in ToSet(bundle) && bundle[0] in here;
    }
  }

  lemma PlanTake(s: Store, e: Entity, location: EntityLocation, bundleId: nat)
    requires Inv(s) && EntitiesGet(s.meta, e) == Some(location)
    requires bundleId < |s.bundles| && location.archetypeId < |s.archetypes|
    requires ToSet(s.bundles[bundleId]) <= s.archetypes[location.archetypeId].ComponentSet()
    ensures NoDuplicates(s.bundles[bundleId])
    ensures forall k :: 0 <= k < |s.bundles[bundleId]| ==> Readable(s, e, location, s.bundles[bundleId][k])
  {
    InvParts(s);
    hide Inv, GraphInv, Coherent, DataInv, Archetype.ComponentSet, NoDuplicates, Readable;
    BundleIsWf(s, bundleId);
    var bundle := s.bundles[bundleId];
    forall k | 0 <= k < |bundle|
      ensures Readable(s, e, location, bundle[k])
    {
      assert bundle[k] in ToSet(bundle);
      PresentIsReadable(s, e, location, bundle[k]);
    }
  }

  ghost predicate DespawnPlanned(s: Store, e: Entity, location: EntityLocation, here: set<ComponentId>) {
    && Coherent(s) && TablesWf(s.tables)
    && EntitiesGet(s.meta, e) == Some(location) && 1 <= e.generation <= MAX_GENERATION
    && location.archetypeId < |s.archetypes|
    && SetsHold(s, e, here)
    && (forall c :: c in ToSet(SparseComponents(s.archetypes[location.archetypeId])) ==>
          c in here && c < |s.components| && s.components[c].storage == InSparseSet)
  }

  lemma AllSparse(s: Store, e: Entity, location: EntityLocation, here: set<ComponentId>)
    requires DespawnPlanned(s, e, location, here)
    ensures var sparse := SparseComponents(s.archetypes[location.archetypeId]);
            forall k :: 0 <= k < |sparse| ==>
              sparse[k] in here && sparse[k] < |s.components| && s.components[sparse[k]].storage == InSparseSet
  {
    var sparse := SparseComponents(s.archetypes[location.archetypeId]);
    hide Coherent, TablesWf, SetsHold;
    assert forall k :: 0 <= k < |sparse| ==> sparse[k] in ToSet(sparse);
  }

  lemma PlanDespawn(s: Store, e: Entity, location: EntityLocation)
    requires Inv(s) && EntitiesGet(s.meta, e) == Some(location) && location.archetypeId < |s.archetypes|
    ensures var a := s.archetypes[location.archetypeId];
            && e in Abs(s) && Abs(s)[e].Keys == a.ComponentSet()
            && DespawnPlanned(s, e, location, a.ComponentSet())
            && NoDuplicates(Ids(a.components)) && ToSet(Ids(a.components)) == Abs(s)[e].Keys
            && (forall k :: 0 <= k < |Ids(a.components)| ==> Ids(a.components)[k] < |s.components|)
            && (!Flag(a.flags, OnRemove) ==> Fired(s.components, OnRemove, e, Ids(a.components)) == [])
  {
    hide Inv, GraphInv, Coherent, DataInv, Abs, SetsHold, NoDuplicates, Fired, TablesWf, StrictlySorted, FlagsExact;
    hide EntityAt, HasComponent;
    var a := s.archetypes[location.archetypeId];
    EntityHas(s, e);
    SparseComponentsCover(s, e, location.archetypeId);
    InvParts(s);
    ArchetypeIsWf(s, location.archetypeId);
    ArchetypeListsOnce(s.components, a);
    InvTables(s);
    GenerationInRange(s, e.index);
    FlagSkipsNothing(s.components, a, OnRemove, e, Ids(a.components));
  }

  lemma GenerationInRange(s: Store, e: nat)
    requires Inv(s) && e < |s.meta|
    ensures 1 <= s.meta[e].generation <= MAX_GENERATION
  {
    hide GraphInv, Coherent, InitialisedExcept, SparseSide, SparseSetsWf, TablesWf;
  }

  lemma AllocatorOf(s: Store)
    requires Inv(s)
    ensures AllocatorWf(s.meta, s.pending)
  {
    hide GraphInv, Coherent, InitialisedExcept, SparseSide, SparseSetsWf, TablesWf;
  }

  lemma DespawnSettles(s: Store, sets: map<ComponentId, SparseSet>, t: Store, e: Entity, location: EntityLocation)
    requires location.archetypeId < |s.archetypes| && EntitiesGet(s.meta, e) == Some(location)
    requires DespawnPlanned(s, e, location, s.archetypes[location.archetypeId].ComponentSet())
    requires SetsRemoved(s.sparseSets, sets, e, ToSet(SparseComponents(s.archetypes[location.archetypeId])))
    requires t == Despawned(s, e.index, sets)
    requires Inv(s)
    ensures Inv(t) && Abs(t) == Abs(s) - {e} && SameComponents(s.archetypes, t.archetypes)
    ensures (EmptyTableSplit(t.archetypes) <==> EmptyTableSplit(s.archetypes)) && HandlesAdvance(s.meta, t.meta)
    ensures t.pending == s.pending + [e.index] && 1 <= e.generation <= MAX_GENERATION
    ensures e.index < |t.meta| == |s.meta| && t.meta[e.index] == EntityMeta(NextGeneration(e.generation), None)
  {
    assert e == EntityAt(s, e.index);
    SparseComponentsCover(s, e, location.archetypeId);
    hide Inv, SetsRemoved, Abs, SetsHold, Archetype.ComponentSet, HasComponent;
    DespawnEffect(s, e.index, ToSet(SparseComponents(s.archetypes[location.archetypeId])), sets);
    DespawnShape(s, e.index, sets);
    assert t.meta[e.index] == EntityMeta(NextGeneration(e.generation), None);
    hide Despawned, Coherent, TablesWf, SameShape, OthersKept;
    SameShapeSplit(s, t);
    AllocatorOf(s);
    FreeingAdvances(s, t, e.index);
    forall k | 0 <= k < |s.archetypes|
      ensures t.archetypes[k].components == s.archetypes[k].components
    {
      SameShapeArchetype(s, t, k);
    }
  }

  // ---- operations as steps -------------------------------------------------------------------

  lemma LiveEntities(s: Store, e: Entity)
    ensures e in Abs(s) <==> EntitiesGet(s.meta, e).Some?
  {
    InAlive(s.meta, e);
  }

  /** Whether an operation gives an archetype a second empty table, told from the world before it. */
  ghost predicate OpSplits(s: Store, op: Op) {
    match op
    case SpawnOp(_, _, _) => false
    case InsertOp(_, _, _, _) => false
    case RemoveOp(e, b) => BundleSplits(s, e, b)
    case TakeOp(e, b) => BundleSplits(s, e, b) && e in Abs(s) && ToSet(s.bundles[b]) <= Abs(s)[e].Keys
    case DespawnOp(_) => false
  }

  ghost predicate BundleSplits(s: Store, e: Entity, b: nat) {
    && EntitiesGet(s.meta, e).Some? && b < |s.bundles|
    && SplitsEmptyTable(s, EntitiesGet(s.meta, e).value.archetypeId, ToSet(s.bundles[b]))
  }

  lemma TakingNothing(infos: seq<ComponentInfo>, e: Entity, before: Entities)
    ensures e in before ==> Removes(infos, [], e, Step(before, before, [], []))
  {
    var nothing: seq<ComponentId> := [];
    assert ToSet(nothing) == {};
    if e in before {
      assert before[e] - {} == before[e];
      NoEvents(e, before[e].Keys);
    }
  }

  lemma SpawnedStep(infos: seq<ComponentInfo>, bundle: seq<ComponentId>, values: seq<Value>, tick: Tick, e: Entity,
                    s: Step)
    requires |bundle| == |values| && e !in s.before
    requires s == Step(s.before, s.before[e := Overwrite(map[], bundle, values, tick)],
                       InsertTriggers(infos, e, bundle, {}), [])
    ensures Spawns(infos, bundle, values, tick, e, s)
  {
  }

  lemma NoSpawns(r: Registry, bundle: nat, tick: Tick, start: Entities)
    ensures SpawnOps(bundle, [], tick) == []
    ensures AllTyped(r, SpawnOps(bundle, [], tick)) && Run(r, SpawnOps(bundle, [], tick), start, [], start)
    ensures AllFired([]) == []
  {
    NoSteps(r, start);
  }

  lemma OneMoreSpawn(r: Registry, bundle: nat, batch: seq<seq<Value>>, k: nat, tick: Tick, start: Entities,
                     steps: seq<Step>, before: Entities, e: Entity, s: Step)
    requires bundle < |r.bundles| && k < |batch| && |batch[k]| == |r.bundles[bundle]|
    requires AllTyped(r, SpawnOps(bundle, batch[..k], tick))
    requires Run(r, SpawnOps(bundle, batch[..k], tick), start, steps, before)
    requires s.before == before && Spawns(r.infos, r.bundles[bundle], batch[k], tick, e, s)
    ensures AllTyped(r, SpawnOps(bundle, batch[..k + 1], tick))
    ensures Run(r, SpawnOps(bundle, batch[..k + 1], tick), start, steps + [s], s.after)
    ensures AllFired(steps + [s]) == AllFired(steps) + s.fired
  {
    hide Run, Takes, Spawns, AllTyped, OpTyped, AllFired, AllRemoved, SpawnOps;
    var op := SpawnOp(bundle, batch[k], tick);
    SpawnTakes(r, bundle, batch[k], tick, e, s);
    SpawnOpsSnoc(bundle, batch, k, tick);
    RunSnoc(r, SpawnOps(bundle, batch[..k], tick), start, steps, before, op, s);
  }

  lemma SpawnTakes(r: Registry, bundle: nat, values: seq<Value>, tick: Tick, e: Entity, s: Step)
    requires bundle < |r.bundles| && |values| == |r.bundles[bundle]|
    requires Spawns(r.infos, r.bundles[bundle], values, tick, e, s)
    ensures OpTyped(r, SpawnOp(bundle, values, tick)) && Takes(SpawnOp(bundle, values, tick), r, s)
  {
    hide Spawns;
  }

  lemma SpawnOpsSnoc(bundle: nat, batch: seq<seq<Value>>, k: nat, tick: Tick)
    requires k < |batch|
    ensures SpawnOps(bundle, batch[..k + 1], tick)
            == SpawnOps(bundle, batch[..k], tick) + [SpawnOp(bundle, batch[k], tick)]
  {
  }
}
