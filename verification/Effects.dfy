/** What whole operations do to the invariant and to the observable component maps. */
module Effects {
  import opened Collections
  import opened Storage
  import opened Locations
  import opened Stores
  import opened Graph
  import opened Moves
  import opened Writes

  /** `t` is `s` with entity `e` moved to archetype `b`, before anything is written or dropped. */
  ghost predicate MovedTo(s: Store, t: Store, e: nat, b: nat) {
    && SameShape(s, t) && Coherent(t) && TablesWf(t.tables)
    && t.sparseSets == s.sparseSets && t.pending == s.pending
    && OthersKept(s, t, e)
    && At(s.meta, e).Some? && At(t.meta, e).Some? && At(t.meta, e).value.archetypeId == b
    && t.meta[e].generation == s.meta[e].generation
    && At(s.meta, e).value.tableId < |s.tables| && At(t.meta, e).value.tableId < |t.tables|
    && RowCarried(s, t, e)
    && InitialisedExcept(t.tables, At(t.meta, e).value.tableId, At(t.meta, e).value.tableRow)
  }

  // ---- a move cannot be observed ---------------------------------------------------------

  lemma BystanderLookup(s: Store, t: Store, e: nat, x: Entity, c: ComponentId)
    requires t.components == s.components && t.sparseSets == s.sparseSets
    requires TableSide(s.tables, s.meta, {}) && TableSide(t.tables, t.meta, {}) && TablesWf(s.tables)
             && TablesWf(t.tables)
    requires |t.tables| == |s.tables|
    requires forall u :: 0 <= u < |s.tables| ==> t.tables[u].columns.Keys == s.tables[u].columns.Keys
    requires OthersKept(s, t, e)
    requires x.index != e
    ensures Lookup(t, x, c) == Lookup(s, x, c)
  {
  }

  lemma CarriedLookup(s: Store, t: Store, e: nat, c: ComponentId)
    requires t.components == s.components && t.sparseSets == s.sparseSets
    requires TableSide(s.tables, s.meta, {}) && TableSide(t.tables, t.meta, {}) && TablesWf(s.tables)
             && TablesWf(t.tables)
    requires At(s.meta, e).Some? && At(t.meta, e).Some? && t.meta[e].generation == s.meta[e].generation
    requires At(s.meta, e).value.tableId < |s.tables| && At(t.meta, e).value.tableId < |t.tables|
    requires RowCarried(s, t, e)
    requires c < |s.components| && s.components[c].storage == InTable ==>
               (c in s.tables[At(s.meta, e).value.tableId].columns ==>
                  c in t.tables[At(t.meta, e).value.tableId].columns)
    ensures Lookup(t, EntityAt(s, e), c) == Lookup(s, EntityAt(s, e), c)
  {
  }

  lemma SameLookupsSameAbs(s: Store, t: Store)
    requires t.components == s.components
    requires |t.meta| == |s.meta|
    requires forall i :: 0 <= i < |s.meta| ==>
               t.meta[i].generation == s.meta[i].generation && (t.meta[i].location.Some? <==> s.meta[i].location.Some?)
    requires forall x: Entity, c: ComponentId :: Lookup(t, x, c) == Lookup(s, x, c)
    ensures Abs(t) == Abs(s)
  {
    hide Lookup;
    assert Alive(t.meta) == Alive(s.meta);
    forall x | x in Alive(s.meta)
      ensures ComponentsOf(t, x) == ComponentsOf(s, x)
    {
    }
  }

  /** Moving an entity to an archetype with at least its components changes no component map. */
  lemma MoveUnobserved(s: Store, t: Store, e: nat, b: nat)
    requires Coherent(s) && TablesWf(s.tables)
    requires MovedTo(s, t, e, b)
    requires s.tables[At(s.meta, e).value.tableId].columns.Keys <= t.tables[At(t.meta, e).value.tableId].columns.Keys
    ensures Abs(t) == Abs(s)
  {
    forall x: Entity, c: ComponentId
      ensures Lookup(t, x, c) == Lookup(s, x, c)
    {
      if x.index == e {
        if x == EntityAt(s, e) {
          CarriedLookup(s, t, e, c);
        }
      } else {
        BystanderLookup(s, t, e, x, c);
      }
    }
    hide Coherent, TableSide, ArchetypeSide, SameShape, RowCarried;
    SameLookupsSameAbs(s, t);
  }

  // ---- insertion -------------------------------------------------------------------------------

  /** The table components of an archetype are a subset of those of an archetype with more components. */
  lemma MoreComponentsMoreColumns(s: Store, a: nat, b: nat)
    requires ArchetypesWf(s)
    requires a < |s.archetypes| && b < |s.archetypes|
    requires s.archetypes[a].ComponentSet() <= s.archetypes[b].ComponentSet()
    ensures s.archetypes[a].tableId < |s.tables| && s.archetypes[b].tableId < |s.tables|
    ensures s.tables[s.archetypes[a].tableId].columns.Keys <= s.tables[s.archetypes[b].tableId].columns.Keys
  {
    assert ArchetypeWf(s.components, s.tables, s.tableIds, s.archetypes[a]);
    assert ArchetypeWf(s.components, s.tables, s.tableIds, s.archetypes[b]);
    StorageDecides(s.components, s.archetypes[a]);
    StorageDecides(s.components, s.archetypes[b]);
    hide ArchetypeWf, Archetype.ComponentSet;
  }

  lemma ColumnsOfArchetype(s: Store, a: nat, c: ComponentId)
    requires ArchetypesWf(s) && a < |s.archetypes|
    ensures s.archetypes[a].tableId < |s.tables|
    ensures c in s.archetypes[a].ComponentSet() ==> c < |s.components|
    ensures c in s.tables[s.archetypes[a].tableId].columns <==>
              c in s.archetypes[a].ComponentSet() && s.components[c].storage == InTable
  {
    assert ArchetypeWf(s.components, s.tables, s.tableIds, s.archetypes[a]);
    StorageDecides(s.components, s.archetypes[a]);
    hide ArchetypeWf, Archetype.ComponentSet;
    assert c in s.tables[s.archetypes[a].tableId].columns <==> c in ToSet(TableComponents(s.archetypes[a]));
  }

  /** After the bundle is written, no slot is left uninitialised. */
  lemma InsertInitialises(s: Store, t: Store, u: Store, e: nat, a: nat, b: nat,
                          bundle: seq<ComponentId>, values: seq<Value>, tick: Tick)
    requires ArchetypesWf(s) && ArchetypesWf(t)
    requires TablesWf(s.tables) && InitialisedExcept(s.tables, -1, -1) && TableSide(s.tables, s.meta, {})
    requires ArchetypeSide(s.archetypes, s.meta, {}) && ArchetypeSide(t.archetypes, t.meta, {})
             && TableSide(t.tables, t.meta, {})
    requires MovedTo(s, t, e, b)
    requires At(s.meta, e).value.archetypeId == a && a < |s.archetypes| && b < |s.archetypes|
    requires s.archetypes[b].ComponentSet() == s.archetypes[a].ComponentSet() + ToSet(bundle)
    requires Written(t, u, Place(EntityAt(s, e), At(t.meta, e).value.tableId, At(t.meta, e).value.tableRow), bundle,
                     values, tick)
    ensures InitialisedExcept(u.tables, -1, -1)
  {
    hide MovedTo, Written, ArchetypesWf, ArchetypeSide, TableSide, TablesWf, Archetype.ComponentSet, EntityAt;
    MovedLeavesFresh(s, t, e, b);
    var m := At(t.meta, e).value;
    var p := Place(EntityAt(s, e), m.tableId, m.tableRow);
    WrittenElsewhere(t, u, p, bundle, values, tick, 0);
    forall v, c, r | 0 <= v < |u.tables| && c in u.tables[v].columns && 0 <= r < |u.tables[v].columns[c]|
      ensures u.tables[v].columns[c][r].Init?
    {
      WrittenElsewhere(t, u, p, bundle, values, tick, c);
      if v == m.tableId && r == m.tableRow {
        CarriedInitialised(s, t, e, a, b, bundle, c);
        WrittenRow(t, u, p, bundle, values, tick, c);
      }
    }
  }

  lemma MovedLeavesFresh(s: Store, t: Store, e: nat, b: nat)
    requires MovedTo(s, t, e, b)
    ensures At(s.meta, e).Some? && At(t.meta, e).Some?
    ensures InitialisedExcept(t.tables, At(t.meta, e).value.tableId, At(t.meta, e).value.tableRow)
  {
    hide SameShape, Coherent, TablesWf, OthersKept, RowCarried, InitialisedExcept;
  }

  /** The slots of the moved row that the bundle does not write were there before. */
  lemma CarriedInitialised(s: Store, t: Store, e: nat, a: nat, b: nat, bundle: seq<ComponentId>, c: ComponentId)
    requires ArchetypesWf(s) && ArchetypesWf(t)
    requires InitialisedExcept(s.tables, -1, -1)
    requires ArchetypeSide(s.archetypes, s.meta, {}) && ArchetypeSide(t.archetypes, t.meta, {})
    requires MovedTo(s, t, e, b)
    requires At(s.meta, e).value.archetypeId == a && a < |s.archetypes| && b < |s.archetypes|
    requires s.archetypes[b].ComponentSet() == s.archetypes[a].ComponentSet() + ToSet(bundle)
    requires c in t.tables[At(t.meta, e).value.tableId].columns
    ensures c < |t.components| && t.components[c].storage == InTable
    ensures var m := At(t.meta, e).value;
            && m.tableRow < |t.tables[m.tableId].columns[c]|
            && (c !in bundle ==> t.tables[m.tableId].columns[c][m.tableRow].Init?)
  {
    SameShapeArchetype(s, t, b);
    assert t.components == s.components;
    assert InArchetypeRow(s.archetypes, s.meta, e) && InArchetypeRow(t.archetypes, t.meta, e);
    assert forall d :: d in ToSet(bundle) ==> d in bundle;
    hide SameShape, OthersKept, Coherent, TablesWf, ArchetypesWf, ArchetypeSide, Archetype.ComponentSet, ToSet;
    ColumnsOfArchetype(t, b, c);
    ColumnsOfArchetype(s, a, c);
  }

  /** After the bundle is written, every sparse set holds exactly the entities it should. */
  lemma InsertFillsSets(s: Store, t: Store, u: Store, e: nat, a: nat, b: nat,
                        bundle: seq<ComponentId>, values: seq<Value>, tick: Tick)
    requires SparseSetsWf(s.components, s.sparseSets) && SparseSide(s.archetypes, s.meta, s.sparseSets, {})
    requires MovedTo(s, t, e, b)
    requires At(s.meta, e).value.archetypeId == a && a < |s.archetypes| && b < |s.archetypes|
    requires s.archetypes[b].ComponentSet() == s.archetypes[a].ComponentSet() + ToSet(bundle)
    requires Written(t, u, Place(EntityAt(s, e), At(t.meta, e).value.tableId, At(t.meta, e).value.tableRow), bundle,
                     values, tick)
    ensures SparseSetsWf(u.components, u.sparseSets) && SparseSide(u.archetypes, u.meta, u.sparseSets, {})
  {
    var p := Place(EntityAt(s, e), At(t.meta, e).value.tableId, At(t.meta, e).value.tableRow);
    WrittenSetsWf(t, u, p, bundle, values, tick);
    hide MovedTo, Written;
    forall c | c in u.sparseSets
      ensures SetSide(u.archetypes, u.meta, c, u.sparseSets[c], {})
    {
      InsertFillsOneSet(s, t, u, e, a, b, bundle, values, tick, c);
    }
  }

  lemma WrittenSetsWf(t: Store, u: Store, p: Place, bundle: seq<ComponentId>, values: seq<Value>, tick: Tick)
    requires Written(t, u, p, bundle, values, tick)
    requires SparseSetsWf(t.components, t.sparseSets)
    ensures SparseSetsWf(u.components, u.sparseSets)
    ensures u.sparseSets.Keys == t.sparseSets.Keys
  {
  }

  lemma InsertFillsOneSet(s: Store, t: Store, u: Store, e: nat, a: nat, b: nat,
                          bundle: seq<ComponentId>, values: seq<Value>, tick: Tick, c: ComponentId)
    requires c in s.sparseSets && c in u.sparseSets && SetSide(s.archetypes, s.meta, c, s.sparseSets[c], {})
    requires c < |s.components| && s.components[c].storage == InSparseSet
    requires MovedTo(s, t, e, b)
    requires At(s.meta, e).value.archetypeId == a && a < |s.archetypes| && b < |s.archetypes|
    requires s.archetypes[b].ComponentSet() == s.archetypes[a].ComponentSet() + ToSet(bundle)
    requires Written(t, u, Place(EntityAt(s, e), At(t.meta, e).value.tableId, At(t.meta, e).value.tableRow), bundle,
                     values, tick)
    ensures SetSide(u.archetypes, u.meta, c, u.sparseSets[c], {})
  {
    hide RowCarried, InitialisedExcept, Coherent, Written, Archetype.ComponentSet, OthersKept, SetSide, HasComponent;
    OneSetFilled(t, u, Place(EntityAt(s, e), At(t.meta, e).value.tableId, At(t.meta, e).value.tableRow), bundle, values,
                 tick, c);
    SameHolders(s, t, e, c);
    SameShapeArchetype(s, t, b);
    HasByArchetype(s, e, c);
    HasByArchetype(t, e, c);
    SetSideAfterWrite(s, t, e, c, c in bundle, u.sparseSets[c]);
  }

  /** What writing a bundle does to the sparse set of one component. */
  lemma OneSetFilled(t: Store, u: Store, p: Place, bundle: seq<ComponentId>, values: seq<Value>, tick: Tick,
                     c: ComponentId)
    requires Written(t, u, p, bundle, values, tick)
    requires c in u.sparseSets && c < |t.components| && t.components[c].storage == InSparseSet
    ensures c in t.sparseSets
    ensures SetGains(t.sparseSets[c], u.sparseSets[c], p.entity, c in bundle)
    ensures u.meta == t.meta && u.archetypes == t.archetypes
  {
    assert bundle[..|bundle|] == bundle;
    if c in bundle {
      var k :| 0 <= k < |bundle| && bundle[k] == c;
    }
  }

  /** `after` is `before`, with an entry for `e` if `gained`. */
  ghost predicate SetGains(before: SparseSet, after: SparseSet, e: Entity, gained: bool) {
    && (forall i: nat :: i != e.index ==>
          (i in after.sparse <==> i in before.sparse) && after.Owner(i) == before.Owner(i))
    && (gained ==> e.index in after.sparse && after.Owner(e.index) == Some(e))
    && (!gained ==> after == before)
  }

  lemma SetSideAfterWrite(s: Store, t: Store, e: nat, c: ComponentId, gained: bool, after: SparseSet)
    requires c in s.sparseSets && SetSide(s.archetypes, s.meta, c, s.sparseSets[c], {})
    requires e < |s.meta| && SetGains(s.sparseSets[c], after, EntityAt(s, e), gained)
    requires HasComponent(t.archetypes, t.meta, e, c) <==> HasComponent(s.archetypes, s.meta, e, c) || gained
    requires |t.meta| == |s.meta| && forall i :: 0 <= i < |s.meta| ==> t.meta[i].generation == s.meta[i].generation
    requires forall i: nat :: i != e ==>
               (HasComponent(t.archetypes, t.meta, i, c) <==> HasComponent(s.archetypes, s.meta, i, c))
    ensures SetSide(t.archetypes, t.meta, c, after, {})
  {
    hide Archetype.ComponentSet, HasComponent;
    assert e in s.sparseSets[c].sparse <==> HasComponent(s.archetypes, s.meta, e, c);
  }

  /** What an entity has is what its archetype lists. */
  lemma HasByArchetype(s: Store, e: nat, c: ComponentId)
    requires At(s.meta, e).Some? && At(s.meta, e).value.archetypeId < |s.archetypes|
    ensures HasComponent(s.archetypes, s.meta, e, c)
            <==> c in s.archetypes[At(s.meta, e).value.archetypeId].ComponentSet()
  {
  }

  /** The entities other than `e` are in an archetype with the same components as before. */
  lemma SameHolders(s: Store, t: Store, e: nat, c: ComponentId)
    requires SameShape(s, t) && OthersKept(s, t, e)
    requires e < |s.meta| && t.meta[e].generation == s.meta[e].generation
    ensures forall i: nat :: i != e ==>
              (HasComponent(t.archetypes, t.meta, i, c) <==> HasComponent(s.archetypes, s.meta, i, c))
    ensures forall i: nat :: i < |s.meta| ==> i < |t.meta| && t.meta[i].generation == s.meta[i].generation
    ensures |t.meta| == |s.meta|
  {
    forall i: nat | i != e
      ensures HasComponent(t.archetypes, t.meta, i, c) <==> HasComponent(s.archetypes, s.meta, i, c)
    {
      if i < |s.meta| && s.meta[i].location.Some? && s.meta[i].location.value.archetypeId < |s.archetypes| {
        SameShapeArchetype(s, t, s.meta[i].location.value.archetypeId);
      }
    }
  }

  lemma AllocatorSurvives(s: Store, t: Store, e: nat)
    requires AllocatorWf(s.meta, s.pending)
    requires OthersKept(s, t, e) && t.pending == s.pending
    requires At(s.meta, e).Some? && t.meta[e].generation == s.meta[e].generation
    ensures AllocatorWf(t.meta, t.pending)
  {
  }

  /** The whole of `insert`: move, then write. */
  lemma InsertEffect(s: Store, t: Store, u: Store, e: nat, a: nat, b: nat,
                     bundle: seq<ComponentId>, values: seq<Value>, tick: Tick)
    requires Inv(s)
    requires MovedTo(s, t, e, b)
    requires At(s.meta, e).value.archetypeId == a && a < |s.archetypes| && b < |s.archetypes|
    requires s.archetypes[b].ComponentSet() == s.archetypes[a].ComponentSet() + ToSet(bundle)
    requires Written(t, u, Place(EntityAt(s, e), At(t.meta, e).value.tableId, At(t.meta, e).value.tableRow), bundle,
                     values, tick)
    ensures Inv(u)
    ensures |bundle| == |values| && EntityAt(s, e) in Abs(s)
    ensures Abs(u) == Abs(s)[EntityAt(s, e) := Overwrite(Abs(s)[EntityAt(s, e)], bundle, values, tick)]
  {
    InsertKeepsGraph(s, t, u, e, b, bundle, values, tick);
    InsertKeepsData(s, t, u, e, a, b, bundle, values, tick);
    InsertAbs(s, t, u, e, a, b, bundle, values, tick);
    hide GraphInv, Coherent, DataInv, MovedTo, Written;
  }

  lemma InsertKeepsGraph(s: Store, t: Store, u: Store, e: nat, b: nat,
                         bundle: seq<ComponentId>, values: seq<Value>, tick: Tick)
    requires GraphInv(s)
    requires MovedTo(s, t, e, b)
    requires Written(t, u, Place(EntityAt(s, e), At(t.meta, e).value.tableId, At(t.meta, e).value.tableRow), bundle,
                     values, tick)
    ensures GraphInv(t) && GraphInv(u) && Coherent(u)
  {
    hide GraphInv, ArchetypeSide, RowCarried, OthersKept, InitialisedExcept, SetsWritten;
    SameShapeKeepsGraph(s, t);
    SameShapeKeepsGraph(t, u);
  }

  lemma InsertKeepsData(s: Store, t: Store, u: Store, e: nat, a: nat, b: nat,
                        bundle: seq<ComponentId>, values: seq<Value>, tick: Tick)
    requires Inv(s) && GraphInv(t)
    requires MovedTo(s, t, e, b)
    requires At(s.meta, e).value.archetypeId == a && a < |s.archetypes| && b < |s.archetypes|
    requires s.archetypes[b].ComponentSet() == s.archetypes[a].ComponentSet() + ToSet(bundle)
    requires Written(t, u, Place(EntityAt(s, e), At(t.meta, e).value.tableId, At(t.meta, e).value.tableRow), bundle,
                     values, tick)
    ensures DataInv(u)
  {
    hide ArchetypesWf, BundlesWf, TablesCanonical, ByComponentsExact, EdgesExact, ArchetypeSide, TableSide;
    hide SparseSide, SparseSetsWf, InitialisedExcept, AllocatorWf, TableWritten, SetsWritten, OthersKept, RowCarried;
    hide SameShape;
    hide Archetype.ComponentSet;
    InsertInitialises(s, t, u, e, a, b, bundle, values, tick);
    InsertFillsSets(s, t, u, e, a, b, bundle, values, tick);
    AllocatorSurvives(s, t, e);
    WrittenTablesWf(t, u, Place(EntityAt(s, e), At(t.meta, e).value.tableId, At(t.meta, e).value.tableRow), bundle,
                    values, tick);
  }

  lemma WrittenTablesWf(t: Store, u: Store, p: Place, bundle: seq<ComponentId>, values: seq<Value>, tick: Tick)
    requires Written(t, u, p, bundle, values, tick)
    ensures TablesWf(u.tables)
  {
  }

  lemma InsertAbs(s: Store, t: Store, u: Store, e: nat, a: nat, b: nat,
                  bundle: seq<ComponentId>, values: seq<Value>, tick: Tick)
    requires Inv(s) && GraphInv(t)
    requires MovedTo(s, t, e, b)
    requires At(s.meta, e).value.archetypeId == a && a < |s.archetypes| && b < |s.archetypes|
    requires s.archetypes[b].ComponentSet() == s.archetypes[a].ComponentSet() + ToSet(bundle)
    requires Written(t, u, Place(EntityAt(s, e), At(t.meta, e).value.tableId, At(t.meta, e).value.tableRow), bundle,
                     values, tick)
    ensures |bundle| == |values| && EntityAt(s, e) in Abs(s)
    ensures Abs(u) == Abs(s)[EntityAt(s, e) := Overwrite(Abs(s)[EntityAt(s, e)], bundle, values, tick)]
  {
    hide GraphInv, DataInv, OthersKept, RowCarried, SameShape, InitialisedExcept, Written, Archetype.ComponentSet;
    MoveLands(s, t, e, a, b);
    MoreColumns(s, a, b);
    assert TablesWf(s.tables) by {
      InvTables(s);
    }
    MoveUnobserved(s, t, e, b);
    InsertWrites(t, u, EntityAt(s, e), bundle, values, tick);
    assert EntityAt(s, e) in Alive(s.meta);
  }

  lemma InvTables(s: Store)
    requires Inv(s)
    ensures TablesWf(s.tables)
  {
    hide GraphInv, Coherent;
  }

  lemma InsertWrites(t: Store, u: Store, e: Entity, bundle: seq<ComponentId>, values: seq<Value>, tick: Tick)
    requires EntitiesGet(t.meta, e).Some?
    requires TableSide(t.tables, t.meta, {})
    requires Written(t, u, Place(e, At(t.meta, e.index).value.tableId, At(t.meta, e.index).value.tableRow), bundle,
                     values, tick)
    ensures |bundle| == |values|
    ensures e in Abs(t) && Abs(u) == Abs(t)[e := Overwrite(Abs(t)[e], bundle, values, tick)]
  {
    WrittenAbs(t, u, Place(e, At(t.meta, e.index).value.tableId, At(t.meta, e.index).value.tableRow), bundle, values,
               tick);
    hide Written, TableSide;
    assert e in Alive(t.meta);
    assert Abs(t)[e] == ComponentsOf(t, e);
  }

  /** The tables of the archetypes a move leaves and reaches, read off the locations. */
  lemma SameShapeSplit(s: Store, t: Store)
    requires SameShape(s, t)
    ensures EmptyTableSplit(s.archetypes) <==> EmptyTableSplit(t.archetypes)
  {
    hide EmptyTableSplit;
    forall a | 0 <= a < |s.archetypes|
      ensures t.archetypes[a].components == s.archetypes[a].components
              && t.archetypes[a].tableId == s.archetypes[a].tableId
    {
      assert t.archetypes[a].(entities := s.archetypes[a].entities) == s.archetypes[a];
    }
    SameTablesSplit(s.archetypes, t.archetypes);
  }

  lemma MoveLands(s: Store, t: Store, e: nat, a: nat, b: nat)
    requires Coherent(s) && MovedTo(s, t, e, b)
    requires At(s.meta, e).value.archetypeId == a && a < |s.archetypes| && b < |s.archetypes|
    ensures At(s.meta, e).value.tableId == s.archetypes[a].tableId
    ensures At(t.meta, e).value.tableId == s.archetypes[b].tableId
    ensures t.meta[e].generation == s.meta[e].generation
    ensures forall v :: 0 <= v < |s.tables| ==> t.tables[v].columns.Keys == s.tables[v].columns.Keys
  {
    SameShapeArchetype(s, t, b);
    hide RowCarried, InitialisedExcept;
  }

  lemma MoreColumns(s: Store, a: nat, b: nat)
    requires Inv(s)
    requires a < |s.archetypes| && b < |s.archetypes|
    requires s.archetypes[a].ComponentSet() <= s.archetypes[b].ComponentSet()
    ensures s.archetypes[a].tableId < |s.tables| && s.archetypes[b].tableId < |s.tables|
    ensures s.tables[s.archetypes[a].tableId].columns.Keys <= s.tables[s.archetypes[b].tableId].columns.Keys
  {
    hide Coherent, DataInv;
    assert GraphInv(s);
    hide BundlesWf, TablesCanonical, ByComponentsExact, EdgesExact, ArchetypesWf, Archetype.ComponentSet;
    MoreComponentsMoreColumns(s, a, b);
  }

  // ---- the three cases of insertion ----------------------------------------------------------

  /** What a move needs of a world; it still holds while sparse components are being dropped. */
  ghost predicate MovesAllowed(s: Store) {
    Coherent(s) && TablesWf(s.tables) && InitialisedExcept(s.tables, -1, -1)
  }

  lemma InvAllowsMoves(s: Store)
    requires Inv(s)
    ensures MovesAllowed(s)
  {
    hide GraphInv, Coherent, TablesWf, InitialisedExcept, SparseSide, SparseSetsWf, AllocatorWf;
  }

  lemma StayingPut(s: Store, e: nat)
    requires MovesAllowed(s)
    requires At(s.meta, e).Some?
    ensures MovedTo(s, s, e, At(s.meta, e).value.archetypeId)
  {
  }

  lemma MovingSameTable(s: Store, e: nat, b: nat)
    requires MovesAllowed(s)
    requires At(s.meta, e).Some? && b < |s.archetypes|
    requires s.archetypes[b].tableId == At(s.meta, e).value.tableId
    ensures Movable(s, e, b)
    ensures MovedTo(s, MovedSameTable(s, e, b), e, b)
  {
    assert Movable(s, e, b);
    SameTableMove(s, e, b);
    hide ArchetypeSide, OthersKept, SameShape, RowCarried, MovedSameTable;
  }

  lemma MovingNewTable(s: Store, e: nat, b: nat)
    requires MovesAllowed(s)
    requires At(s.meta, e).Some? && b < |s.archetypes| && s.archetypes[b].tableId < |s.tables|
    requires s.archetypes[b].tableId != At(s.meta, e).value.tableId
    ensures Movable(s, e, b)
    ensures MovedTo(s, MovedNewTable(s, e, b), e, b)
  {
    assert Movable(s, e, b);
    NewTableMoveShape(s, e, b);
    NewTableMoveKeepsOthers(s, e, b);
    NewTableMoveCoherent(s, e, b);
    NewTableMoveInitialised(s, e, b);
    hide ArchetypeSide, OthersKept, SameShape, RowCarried, MovedNewTable, InitialisedExcept;
  }

  /** The statuses of an exact edge tell initialised slots from fresh ones: no value is leaked or dropped twice. */
  lemma StatusMatchesSlots(s: Store, t: Store, e: nat, a: nat, b: nat, bundle: seq<ComponentId>, edge: AddBundle)
    requires Inv(s)
    requires MovedTo(s, t, e, b)
    requires At(s.meta, e).value.archetypeId == a && a < |s.archetypes| && b == edge.archetypeId
    requires AddEdgeExact(s.archetypes, a, bundle, edge)
    requires forall k :: 0 <= k < |bundle| ==> bundle[k] < |s.components|
    ensures var m := At(t.meta, e).value;
            && BundleStored(t.components, t.tables[m.tableId], t.sparseSets, bundle)
            && forall k :: 0 <= k < |bundle| && t.components[bundle[k]].storage == InTable ==>
                 (edge.bundleStatus[k] == Added <==> t.tables[m.tableId].columns[bundle[k]][m.tableRow].Uninit?)
  {
    hide Inv, GraphInv, DataInv, Coherent, RowCarried, OthersKept, InitialisedExcept, TablesWf;
    InvParts(s);
    SameShapeComponents(s, t);
    hide MovedTo, SameShape;
    forall k | 0 <= k < |bundle|
      ensures var m := At(t.meta, e).value;
              && (t.components[bundle[k]].storage == InTable ==>
                    && bundle[k] in t.tables[m.tableId].columns && m.tableRow < |t.tables[m.tableId].columns[bundle[k]]|
                    && (edge.bundleStatus[k] == Added <==> t.tables[m.tableId].columns[bundle[k]][m.tableRow].Uninit?))
              && (t.components[bundle[k]].storage == InSparseSet ==> bundle[k] in t.sparseSets)
    {
      StatusMatchesSlot(s, t, e, a, b, bundle, edge, k);
    }
  }

  lemma StatusMatchesSlot(s: Store, t: Store, e: nat, a: nat, b: nat, bundle: seq<ComponentId>, edge: AddBundle, k: nat)
    requires GraphInv(s) && Coherent(s) && DataInv(s)
    requires MovedTo(s, t, e, b)
    requires At(s.meta, e).value.archetypeId == a && a < |s.archetypes| && b == edge.archetypeId
    requires AddEdgeExact(s.archetypes, a, bundle, edge)
    requires k < |bundle| && bundle[k] < |s.components|
    ensures t.components == s.components
    ensures var m := At(t.meta, e).value;
            && (t.components[bundle[k]].storage == InTable ==>
                  && bundle[k] in t.tables[m.tableId].columns && m.tableRow < |t.tables[m.tableId].columns[bundle[k]]|
                  && (edge.bundleStatus[k] == Added <==> t.tables[m.tableId].columns[bundle[k]][m.tableRow].Uninit?))
            && (t.components[bundle[k]].storage == InSparseSet ==> bundle[k] in t.sparseSets)
  {
    hide GraphInv, DataInv, ArchetypeSide, OthersKept, InitialisedExcept, SameShape, Archetype.ComponentSet;
    MoveLands(s, t, e, a, b);
    GraphColumns(s, a, bundle[k]);
    GraphColumns(s, b, bundle[k]);
    SparseSetExists(s, bundle[k]);
    RowInitialised(s, e, bundle[k]);
    assert bundle[k] in ToSet(bundle);
    assert edge.bundleStatus[k] == Mutated <==> bundle[k] in s.archetypes[a].ComponentSet();
    assert t.components == s.components && t.sparseSets == s.sparseSets by {
      SameShapeComponents(s, t);
    }
    hide TableSide, Coherent;
  }

  lemma SameShapeComponents(s: Store, t: Store)
    requires SameShape(s, t)
    ensures t.components == s.components && t.bundles == s.bundles
  {
  }

  lemma GraphColumns(s: Store, a: nat, c: ComponentId)
    requires GraphInv(s) && a < |s.archetypes|
    ensures s.archetypes[a].tableId < |s.tables|
    ensures c in s.archetypes[a].ComponentSet() ==> c < |s.components|
    ensures c in s.tables[s.archetypes[a].tableId].columns <==>
              c in s.archetypes[a].ComponentSet() && s.components[c].storage == InTable
  {
    hide BundlesWf, TablesCanonical, ByComponentsExact, EdgesExact, ArchetypesWf, Archetype.ComponentSet;
    ColumnsOfArchetype(s, a, c);
  }

  lemma SparseSetExists(s: Store, c: ComponentId)
    requires DataInv(s)
    requires c < |s.components|
    ensures s.components[c].storage == InSparseSet ==> c in s.sparseSets
  {
    hide SparseSide, InitialisedExcept, AllocatorWf, TablesWf;
  }

  lemma RowInitialised(s: Store, e: nat, c: ComponentId)
    requires DataInv(s) && TableSide(s.tables, s.meta, {})
    requires At(s.meta, e).Some?
    ensures var l := At(s.meta, e).value;
            && l.tableId < |s.tables|
            && (c in s.tables[l.tableId].columns ==>
                  l.tableRow < |s.tables[l.tableId].columns[c]| && s.tables[l.tableId].columns[c][l.tableRow].Init?)
  {
    hide SparseSide, SparseSetsWf, AllocatorWf;
  }

  lemma PlaceIsOk(s: Store, t: Store, e: nat, b: nat)
    requires DataInv(s)
    requires MovedTo(s, t, e, b)
    ensures var m := At(t.meta, e).value;
            PlaceOk(t.tables, t.sparseSets, Place(EntityAt(s, e), m.tableId, m.tableRow))
  {
    hide RowCarried, OthersKept, SameShape, InitialisedExcept, ArchetypeSide, AllocatorWf;
    forall c | c in t.sparseSets
      ensures t.sparseSets[c].Wf()
      ensures e in t.sparseSets[c].sparse ==> t.sparseSets[c].Owner(e) == Some(EntityAt(s, e))
    {
      assert SetSide(s.archetypes, s.meta, c, s.sparseSets[c], {});
    }
  }
}
