/** Placing a new entity, taking components off one, and taking a whole entity out. */
module Removals {
  import opened Collections
  import opened Storage
  import opened Locations
  import opened Stores
  import opened Graph
  import opened Moves
  import opened Writes
  import opened Effects

  // ---- allocation --------------------------------------------------------------------------

  /** `IdentifierMask::inc_masked_high_by(generation, 1)`: 31 bits, wrapping to 1 and never 0. */
  function NextGeneration(generation: nat): (g: nat)
    requires 1 <= generation <= MAX_GENERATION
    ensures 1 <= g <= MAX_GENERATION && g != generation
  {
    if generation == MAX_GENERATION then 1 else generation + 1
  }

  // ---- handles -------------------------------------------------------------------------------

  /** An index that is freed moves on to its next generation. */
  ghost predicate HandleAdvances(before: EntityMeta, after: EntityMeta) {
    && 1 <= before.generation <= MAX_GENERATION
    && after.generation == if Freed(before, after) then NextGeneration(before.generation) else before.generation
  }

  predicate Freed(before: EntityMeta, after: EntityMeta) {
    before.location.Some? && after.location.None?
  }

  /** What one operation may do to the handles; new indexes start at generation 1. */
  ghost predicate HandlesAdvance(before: seq<EntityMeta>, after: seq<EntityMeta>) {
    && |before| <= |after|
    && (forall i :: 0 <= i < |before| ==> HandleAdvances(before[i], after[i]))
    && (forall i :: |before| <= i < |after| ==> after[i].generation == 1)
  }

  /** What an operation other than despawning does to them. */
  ghost predicate NoneFreed(before: seq<EntityMeta>, after: seq<EntityMeta>) {
    && |before| <= |after|
    && (forall i :: 0 <= i < |before| ==>
          after[i].generation == before[i].generation && !Freed(before[i], after[i]))
    && (forall i :: |before| <= i < |after| ==> after[i].generation == 1)
  }

  lemma NoneFreedIsReflexive(meta: seq<EntityMeta>)
    ensures NoneFreed(meta, meta)
  {
  }

  lemma NoneFreedIsTransitive(before: seq<EntityMeta>, mid: seq<EntityMeta>, after: seq<EntityMeta>)
    requires NoneFreed(before, mid) && NoneFreed(mid, after)
    ensures NoneFreed(before, after)
  {
  }

  lemma NoneFreedAdvances(s: Store, after: seq<EntityMeta>)
    requires Inv(s) && NoneFreed(s.meta, after)
    ensures HandlesAdvance(s.meta, after)
  {
    hide GraphInv, Coherent, InitialisedExcept, SparseSide, SparseSetsWf, TablesWf;
  }

  lemma MovingFreesNone(s: Store, t: Store, e: nat, b: nat)
    requires MovedTo(s, t, e, b)
    ensures NoneFreed(s.meta, t.meta)
  {
    hide SameShape, Coherent, TablesWf, RowCarried, InitialisedExcept, StandsAsBefore;
  }

  lemma FreeingAdvances(s: Store, t: Store, e: nat)
    requires AllocatorWf(s.meta, s.pending) && At(s.meta, e).Some? && OthersKept(s, t, e)
    requires t.meta[e] == EntityMeta(NextGeneration(s.meta[e].generation), None)
    ensures HandlesAdvance(s.meta, t.meta)
  {
    hide StandsAsBefore;
  }

  lemma AllocationFreesNone(s: Store)
    ensures NoneFreed(s.meta, Allocated(s).meta)
  {
  }

  /** `Entities::alloc`: the last freed index, or a new one of generation 1. */
  function Allocated(s: Store): Store {
    if s.pending != [] then s.(pending := s.pending[..|s.pending| - 1])
    else s.(meta := s.meta + [EntityMeta(1, None)])
  }

  function AllocatedIndex(s: Store): nat {
    if s.pending != [] then s.pending[|s.pending| - 1] else |s.meta|
  }

  /** The index freed last comes back with the generation it got then; a new index is made only if none is free. */
  ghost predicate HandedOut(meta: seq<EntityMeta>, pending: seq<nat>, e: Entity, meta': seq<EntityMeta>,
                            pending': seq<nat>)
  {
    if pending == [] then e == Entity(|meta|, 1) && |meta'| == |meta| + 1 && pending' == []
    else
      var n := |pending| - 1;
      && pending[n] < |meta| && e == Entity(pending[n], meta[pending[n]].generation)
      && |meta'| == |meta| && pending' == pending[..n]
  }

  lemma AllocationKeepsInv(s: Store)
    requires Inv(s)
    ensures var t := Allocated(s); var i := AllocatedIndex(s);
            && Inv(t) && Abs(t) == Abs(s)
            && i < |t.meta| && t.meta[i].location.None? && i !in t.pending
            && EntityAt(t, i) !in Abs(s)
  {
    var t := Allocated(s);
    hide GraphInv, SparseSide, InitialisedExcept;
    SameGraph(s, t);
    AllocationKeepsLocations(s);
    AllocationKeepsSets(s);
    hide SparseSetsWf, TablesWf, AllocatorWf, Coherent;
    AllocatedIsFree(s);
    AllocationAbs(s);
  }

  lemma AllocationAbs(s: Store)
    ensures Abs(Allocated(s)) == Abs(s)
  {
    var t := Allocated(s);
    AllocationLookups(s);
    hide Lookup;
    SameAlive(s.meta, t.meta);
    forall e | e in Alive(s.meta)
      ensures ComponentsOf(t, e) == ComponentsOf(s, e)
    {
    }
  }

  lemma InAlive(meta: seq<EntityMeta>, x: Entity)
    ensures x in Alive(meta) <==> EntitiesGet(meta, x).Some?
  {
  }

  lemma SameAlive(meta: seq<EntityMeta>, meta': seq<EntityMeta>)
    requires forall x: Entity :: EntitiesGet(meta', x).Some? <==> EntitiesGet(meta, x).Some?
    ensures Alive(meta') == Alive(meta)
  {
    forall x: Entity
      ensures x in Alive(meta') <==> x in Alive(meta)
    {
      InAlive(meta, x);
      InAlive(meta', x);
    }
  }

  lemma AllocatedIsFree(s: Store)
    requires AllocatorWf(s.meta, s.pending)
    ensures var t := Allocated(s); var i := AllocatedIndex(s);
            && AllocatorWf(t.meta, t.pending)
            && i < |t.meta| && t.meta[i].location.None? && i !in t.pending
            && EntityAt(t, i) !in Alive(s.meta)
  {
  }

  lemma AllocationLookups(s: Store)
    ensures forall e: Entity, c: ComponentId :: Lookup(Allocated(s), e, c) == Lookup(s, e, c)
  {
  }

  lemma AllocationKeepsLocations(s: Store)
    requires Coherent(s)
    ensures Coherent(Allocated(s))
  {
  }

  lemma AllocationKeepsSets(s: Store)
    requires SparseSide(s.archetypes, s.meta, s.sparseSets, {})
    ensures var t := Allocated(s); SparseSide(t.archetypes, t.meta, t.sparseSets, {})
  {
    var t := Allocated(s);
    forall c | c in t.sparseSets
      ensures SetSide(t.archetypes, t.meta, c, t.sparseSets[c], {})
    {
      assert SetSide(s.archetypes, s.meta, c, s.sparseSets[c], {});
      assert forall i: nat :: HasComponent(t.archetypes, t.meta, i, c) <==> HasComponent(s.archetypes, s.meta, i, c);
    }
  }

  // ---- spawning ------------------------------------------------------------------------------

  /** A fresh row in archetype `b` and its table for an entity that stands nowhere. */
  function Placed(s: Store, e: nat, b: nat): Store
    requires e < |s.meta| && b < |s.archetypes| && s.archetypes[b].tableId < |s.tables| && TablesWf(s.tables)
  {
    var u := s.archetypes[b].tableId;
    IntoArchetype(s, e, b, |s.tables[u].entities|).(tables := s.tables[u := s.tables[u].Allocate(EntityAt(s, e))])
  }

  lemma PlacingIsCoherent(s: Store, e: nat, b: nat)
    requires Coherent(s) && TablesWf(s.tables)
    requires e < |s.meta| && s.meta[e].location.None?
    requires b < |s.archetypes| && s.archetypes[b].tableId < |s.tables|
    ensures Coherent(Placed(s, e, b)) && SameShape(s, Placed(s, e, b))
  {
    var t := Placed(s, e, b);
    var u := s.archetypes[b].tableId;
    assert ArchetypeSide(s.archetypes, s.meta, {e});
    assert TableSide(s.tables, s.meta, {e});
    EnterArchetype(s.archetypes, s.meta, e, b, |s.tables[u].entities|);
    EnterTable(s.tables, t.tables, s.meta, e, At(t.meta, e).value);
    hide ArchetypeSide, TableSide;
  }

  lemma PlacingKeepsOthers(s: Store, e: nat, b: nat)
    requires Coherent(s) && TablesWf(s.tables)
    requires e < |s.meta| && s.meta[e].location.None?
    requires b < |s.archetypes| && s.archetypes[b].tableId < |s.tables|
    ensures OthersKept(s, Placed(s, e, b), e)
  {
    hide ArchetypeSide;
  }

  lemma PlacedLookups(s: Store, e: nat, b: nat, x: Entity, c: ComponentId)
    requires Coherent(s) && TablesWf(s.tables)
    requires SparseSide(s.archetypes, s.meta, s.sparseSets, {})
    requires e < |s.meta| && s.meta[e].location.None?
    requires b < |s.archetypes| && s.archetypes[b].tableId < |s.tables|
    ensures Lookup(Placed(s, e, b), x, c) == if x == EntityAt(s, e) then None else Lookup(s, x, c)
  {
    var t := Placed(s, e, b);
    PlacingIsCoherent(s, e, b);
    PlacingKeepsOthers(s, e, b);
    if x.index == e {
      if c in s.sparseSets {
        assert SetSide(s.archetypes, s.meta, c, s.sparseSets[c], {});
        assert e in s.sparseSets[c].sparse <==> HasComponent(s.archetypes, s.meta, e, c);
      }
      hide SparseSide, SetSide, Coherent, SameShape, OthersKept;
    } else {
      BystanderLookup(s, t, e, x, c);
    }
  }

  lemma PlacedAlive(meta: seq<EntityMeta>, e: nat, l: EntityLocation)
    requires e < |meta|
    ensures Alive(Relocate(meta, e, l)) == Alive(meta) + {Entity(e, meta[e].generation)}
  {
    var meta' := Relocate(meta, e, l);
    forall x: Entity
      ensures x in Alive(meta') <==> x in Alive(meta) || x == Entity(e, meta[e].generation)
    {
      InAlive(meta, x);
      InAlive(meta', x);
    }
  }

  /** Until something is written, the new entity has no components. */
  lemma PlacedIsEmpty(s: Store, e: nat, b: nat)
    requires Coherent(s) && TablesWf(s.tables)
    requires SparseSide(s.archetypes, s.meta, s.sparseSets, {})
    requires e < |s.meta| && s.meta[e].location.None?
    requires b < |s.archetypes| && s.archetypes[b].tableId < |s.tables|
    ensures Abs(Placed(s, e, b)) == Abs(s)[EntityAt(s, e) := map[]]
  {
    var t := Placed(s, e, b);
    var E := EntityAt(s, e);
    hide Lookup, Coherent, SparseSide;
    forall x: Entity, c: ComponentId
      ensures Lookup(t, x, c) == if x == E then None else Lookup(s, x, c)
    {
      PlacedLookups(s, e, b, x, c);
    }
    PlacedAlive(s.meta, e, At(t.meta, e).value);
    assert ComponentsOf(t, E) == map[];
    forall x | x in Alive(s.meta)
      ensures ComponentsOf(t, x) == ComponentsOf(s, x)
    {
    }
  }

  lemma SpawnInitialises(s: Store, u: Store, e: nat, b: nat, bundle: seq<ComponentId>, values: seq<Value>, tick: Tick)
    requires ArchetypesWf(s) && TablesWf(s.tables) && InitialisedExcept(s.tables, -1, -1)
    requires e < |s.meta| && b < |s.archetypes| && s.archetypes[b].tableId < |s.tables|
    requires s.archetypes[b].ComponentSet() == ToSet(bundle)
    requires Written(Placed(s, e, b), u,
                     Place(EntityAt(s, e), s.archetypes[b].tableId, |s.tables[s.archetypes[b].tableId].entities|),
                     bundle, values, tick)
    ensures InitialisedExcept(u.tables, -1, -1)
  {
    var t := Placed(s, e, b);
    var v0 := s.archetypes[b].tableId;
    var row := |s.tables[v0].entities|;
    assert bundle[..|bundle|] == bundle;
    forall v, c, r | 0 <= v < |u.tables| && c in u.tables[v].columns && 0 <= r < |u.tables[v].columns[c]|
      ensures u.tables[v].columns[c][r].Init?
    {
      if v == v0 && r == row {
        ColumnsOfArchetype(s, b, c);
        assert c in bundle;
        var k :| 0 <= k < |bundle| && bundle[k] == c;
      } else {
        assert u.tables[v].columns[c][r] == t.tables[v].columns[c][r];
        assert t.tables[v].columns[c][r] == s.tables[v].columns[c][r];
      }
    }
  }

  lemma SpawnFillsOneSet(s: Store, u: Store, e: nat, b: nat, bundle: seq<ComponentId>, values: seq<Value>, tick: Tick,
                         c: ComponentId)
    requires c in s.sparseSets && c in u.sparseSets && SetSide(s.archetypes, s.meta, c, s.sparseSets[c], {})
    requires c < |s.components| && s.components[c].storage == InSparseSet
    requires TablesWf(s.tables) && Coherent(s)
    requires e < |s.meta| && s.meta[e].location.None?
    requires b < |s.archetypes| && s.archetypes[b].tableId < |s.tables|
    requires s.archetypes[b].ComponentSet() == ToSet(bundle)
    requires Written(Placed(s, e, b), u,
                     Place(EntityAt(s, e), s.archetypes[b].tableId, |s.tables[s.archetypes[b].tableId].entities|),
                     bundle, values, tick)
    ensures SetSide(u.archetypes, u.meta, c, u.sparseSets[c], {})
  {
    hide Coherent, Written, Archetype.ComponentSet, OthersKept, SetSide;
    var t := Placed(s, e, b);
    OneSetFilled(t, u, Place(EntityAt(s, e), s.archetypes[b].tableId, |s.tables[s.archetypes[b].tableId].entities|),
                 bundle, values, tick, c);
    PlacingIsCoherent(s, e, b);
    PlacingKeepsOthers(s, e, b);
    SameHolders(s, t, e, c);
    SameShapeArchetype(s, t, b);
    HasByArchetype(t, e, c);
    hide SameShape;
    SetSideAfterWrite(s, t, e, c, c in bundle, u.sparseSets[c]);
  }

  lemma SpawnKeepsData(s: Store, u: Store, e: nat, b: nat, bundle: seq<ComponentId>, values: seq<Value>, tick: Tick)
    requires Inv(s)
    requires e < |s.meta| && s.meta[e].location.None? && e !in s.pending
    requires b < |s.archetypes| && s.archetypes[b].tableId < |s.tables|
    requires s.archetypes[b].ComponentSet() == ToSet(bundle)
    requires Written(Placed(s, e, b), u,
                     Place(EntityAt(s, e), s.archetypes[b].tableId, |s.tables[s.archetypes[b].tableId].entities|),
                     bundle, values, tick)
    ensures DataInv(u)
  {
    hide ArchetypesWf, BundlesWf, TablesCanonical, ByComponentsExact, EdgesExact, ArchetypeSide, TableSide;
    hide InitialisedExcept, TableWritten, SetsWritten, Archetype.ComponentSet, SetSide;
    var t := Placed(s, e, b);
    SpawnInitialises(s, u, e, b, bundle, values, tick);
    WrittenSetsWf(t, u, Place(EntityAt(s, e), s.archetypes[b].tableId, |s.tables[s.archetypes[b].tableId].entities|),
                  bundle, values, tick);
    WrittenTablesWf(t, u, Place(EntityAt(s, e), s.archetypes[b].tableId, |s.tables[s.archetypes[b].tableId].entities|),
                    bundle, values, tick);
    forall c | c in u.sparseSets
      ensures SetSide(u.archetypes, u.meta, c, u.sparseSets[c], {})
    {
      SpawnFillsOneSet(s, u, e, b, bundle, values, tick, c);
    }
  }

  /** The whole of `spawn_non_existent`: a row, then the writes. */
  lemma SpawnEffect(s: Store, u: Store, e: nat, b: nat, bundle: seq<ComponentId>, values: seq<Value>, tick: Tick)
    requires Inv(s)
    requires e < |s.meta| && s.meta[e].location.None? && e !in s.pending
    requires b < |s.archetypes| && s.archetypes[b].tableId < |s.tables|
    requires s.archetypes[b].ComponentSet() == ToSet(bundle)
    requires TablesWf(s.tables)
    requires Written(Placed(s, e, b), u,
                     Place(EntityAt(s, e), s.archetypes[b].tableId, |s.tables[s.archetypes[b].tableId].entities|),
                     bundle, values, tick)
    ensures Inv(u) && |bundle| == |values|
    ensures Abs(u) == Abs(s)[EntityAt(s, e) := Overwrite(map[], bundle, values, tick)]
  {
    SpawnKeepsData(s, u, e, b, bundle, values, tick);
    SpawnKeepsRest(s, u, e, b, bundle, values, tick);
    hide GraphInv, Coherent, DataInv, Written;
  }

  lemma SpawnKeepsRest(s: Store, u: Store, e: nat, b: nat, bundle: seq<ComponentId>, values: seq<Value>, tick: Tick)
    requires Inv(s)
    requires e < |s.meta| && s.meta[e].location.None?
    requires b < |s.archetypes| && s.archetypes[b].tableId < |s.tables|
    requires TablesWf(s.tables)
    requires Written(Placed(s, e, b), u,
                     Place(EntityAt(s, e), s.archetypes[b].tableId, |s.tables[s.archetypes[b].tableId].entities|),
                     bundle, values, tick)
    ensures GraphInv(u) && Coherent(u) && |bundle| == |values|
    ensures Abs(u) == Abs(s)[EntityAt(s, e) := Overwrite(map[], bundle, values, tick)]
  {
    var t := Placed(s, e, b);
    var p := Place(EntityAt(s, e), s.archetypes[b].tableId, |s.tables[s.archetypes[b].tableId].entities|);
    PlaceInAbs(s, e, b);
    hide Inv, GraphInv, ArchetypeSide, TableSide, Written, SameShape, Abs, Placed;
    WrittenShape(t, u, p, bundle, values, tick);
    SameShapeKeepsGraph(t, u);
    SpawnWrites(s, t, u, EntityAt(s, e), p, bundle, values, tick);
  }

  lemma SpawnWrites(s: Store, t: Store, u: Store, e: Entity, p: Place, bundle: seq<ComponentId>, values: seq<Value>,
                    tick: Tick)
    requires EntitiesGet(t.meta, e).Some? && TableSide(t.tables, t.meta, {})
    requires p == Place(e, At(t.meta, e.index).value.tableId, At(t.meta, e.index).value.tableRow)
    requires Written(t, u, p, bundle, values, tick)
    requires Abs(t) == Abs(s)[e := map[]]
    ensures |bundle| == |values|
    ensures Abs(u) == Abs(s)[e := Overwrite(map[], bundle, values, tick)]
  {
    hide TableSide, Written, Abs;
    InsertWrites(t, u, e, bundle, values, tick);
  }

  lemma PlaceInAbs(s: Store, e: nat, b: nat)
    requires Inv(s)
    requires e < |s.meta| && s.meta[e].location.None?
    requires b < |s.archetypes| && s.archetypes[b].tableId < |s.tables|
    requires TablesWf(s.tables)
    ensures var t := Placed(s, e, b);
            && GraphInv(t) && Coherent(t)
            && EntitiesGet(t.meta, EntityAt(s, e)).Some?
            && At(t.meta, e).value.tableId == s.archetypes[b].tableId
            && At(t.meta, e).value.tableRow == |s.tables[s.archetypes[b].tableId].entities|
            && Abs(t) == Abs(s)[EntityAt(s, e) := map[]]
  {
    hide GraphInv, ArchetypeSide, TableSide, InitialisedExcept, AllocatorWf, SparseSide, SparseSetsWf, SameShape, Abs;
    PlacingIsCoherent(s, e, b);
    PlacedIsEmpty(s, e, b);
    SameShapeKeepsGraph(s, Placed(s, e, b));
  }

  lemma WrittenShape(t: Store, u: Store, p: Place, bundle: seq<ComponentId>, values: seq<Value>, tick: Tick)
    requires Written(t, u, p, bundle, values, tick)
    ensures SameShape(t, u)
    ensures Coherent(t) ==> Coherent(u)
  {
    hide SetsWritten;
  }

  // ---- taking components off ---------------------------------------------------------------

  /** Entity `e` is out of the sparse sets of the components in `gone`; the rest is as before. */
  ghost predicate SetsRemoved(sets: map<ComponentId, SparseSet>, sets': map<ComponentId, SparseSet>, e: Entity,
                              gone: set<ComponentId>)
  {
    && sets'.Keys == sets.Keys
    && (forall c :: c in sets ==> SetRemoved(sets[c], sets'[c], e, c in gone))
  }

  ghost predicate SetRemoved(before: SparseSet, after: SparseSet, e: Entity, gone: bool) {
    && after.Wf() && SameElsewhere(before, after, e.index)
    && if gone then e.index !in after.sparse && after.Get(e.index).None? else after == before
  }

  lemma RemoveFromSet(sets: map<ComponentId, SparseSet>, sets': map<ComponentId, SparseSet>, e: Entity,
                      gone: set<ComponentId>, c: ComponentId)
    requires SetsRemoved(sets, sets', e, gone)
    requires c in sets && sets[c].Wf()
    requires e.index in sets[c].sparse ==> sets[c].Owner(e.index) == Some(e)
    ensures c in sets' && sets'[c].Wf()
    ensures e.index in sets'[c].sparse ==> sets'[c].Owner(e.index) == Some(e)
    ensures SetsRemoved(sets, sets'[c := sets'[c].Remove(e)], e, gone + {c})
  {
    hide SameElsewhere, SparseSet.Remove, SparseSet.Get, SparseSet.Owner, SparseSet.Wf;
    assert SetRemoved(sets[c], sets'[c], e, c in gone);
    RemoveTouchesOneIndex(sets[c], sets'[c], e);
    var sets'' := sets'[c := sets'[c].Remove(e)];
    assert SetRemoved(sets[c], sets''[c], e, true);
    hide SetRemoved;
    assert sets''.Keys == sets.Keys;
    forall d | d in sets
      ensures SetRemoved(sets[d], sets''[d], e, d in gone + {c})
    {
    }
  }

  lemma RemoveTouchesOneIndex(first: SparseSet, before: SparseSet, e: Entity)
    requires before.Wf() && SameElsewhere(first, before, e.index)
    requires e.index in before.sparse ==> before.Owner(e.index) == Some(e)
    ensures var after := before.Remove(e);
            && after.Wf() && SameElsewhere(first, after, e.index)
            && e.index !in after.sparse && after.Get(e.index).None?
  {
    var after := before.Remove(e);
    hide SparseSet.Remove;
    assert after.sparse.Keys == before.sparse.Keys - {e.index};
    assert after.Get(e.index).None?;
    hide SparseSet.Get, SparseSet.Owner, SparseSet.Wf;
  }

  lemma RemoveLookups(s: Store, t: Store, e: nat, b: nat, gone: set<ComponentId>, sets: map<ComponentId, SparseSet>,
                      x: Entity, c: ComponentId)
    requires Coherent(s) && TablesWf(s.tables) && e < |s.meta|
    requires SetsRemoved(s.sparseSets, sets, EntityAt(s, e), gone)
    requires MovedTo(s.(sparseSets := sets), t, e, b)
    requires c < |s.components| && s.components[c].storage == InTable ==>
               (c in t.tables[At(t.meta, e).value.tableId].columns
                <==> c in s.tables[At(s.meta, e).value.tableId].columns && c !in gone)
    ensures Lookup(t, x, c) == if x == EntityAt(s, e) && c in gone then None else Lookup(s, x, c)
  {
    var s' := s.(sparseSets := sets);
    if x.index == e {
      if x == EntityAt(s, e) && c !in gone {
        CarriedLookup(s', t, e, c);
      }
    } else {
      BystanderLookup(s', t, e, x, c);
    }
    hide SameShape, RowCarried, InitialisedExcept, ArchetypeSide;
  }

  lemma RemoveAbs(s: Store, t: Store, e: nat, b: nat, gone: set<ComponentId>, sets: map<ComponentId, SparseSet>)
    requires e < |s.meta| && |t.meta| == |s.meta| && t.components == s.components
    requires EntityAt(s, e) in Alive(s.meta) && Alive(t.meta) == Alive(s.meta)
    requires forall x: Entity, c: ComponentId ::
               Lookup(t, x, c) == if x == EntityAt(s, e) && c in gone then None else Lookup(s, x, c)
    ensures Abs(t) == Abs(s)[EntityAt(s, e) := Abs(s)[EntityAt(s, e)] - gone]
  {
    hide Lookup;
    forall x | x in Alive(s.meta)
      ensures ComponentsOf(t, x) == if x == EntityAt(s, e) then ComponentsOf(s, x) - gone else ComponentsOf(s, x)
    {
      assert ComponentsOf(t, x).Keys
          == if x == EntityAt(s, e) then ComponentsOf(s, x).Keys - gone else ComponentsOf(s, x).Keys;
    }
  }

  lemma RemoveInitialises(s: Store, t: Store, e: nat, b: nat)
    requires Coherent(s) && TablesWf(s.tables) && InitialisedExcept(s.tables, -1, -1)
    requires MovedTo(s, t, e, b)
    requires t.tables[At(t.meta, e).value.tableId].columns.Keys <= s.tables[At(s.meta, e).value.tableId].columns.Keys
    ensures InitialisedExcept(t.tables, -1, -1)
  {
    hide SameShape, OthersKept, ArchetypeSide;
  }

  lemma RemoveEmptiesOneSet(s: Store, t: Store, e: nat, a: nat, b: nat, gone: set<ComponentId>,
                            sets: map<ComponentId, SparseSet>, c: ComponentId)
    requires c in s.sparseSets && c in sets && SetSide(s.archetypes, s.meta, c, s.sparseSets[c], {})
    requires At(s.meta, e).Some?
    requires SetsRemoved(s.sparseSets, sets, EntityAt(s, e), gone)
    requires MovedTo(s.(sparseSets := sets), t, e, b)
    requires At(s.meta, e).value.archetypeId == a && a < |s.archetypes| && b < |s.archetypes|
    requires s.archetypes[b].ComponentSet() == s.archetypes[a].ComponentSet() - gone
    ensures SetSide(t.archetypes, t.meta, c, sets[c], {})
  {
    hide RowCarried, InitialisedExcept, Coherent, Archetype.ComponentSet, OthersKept, SetSide, HasComponent;
    SameHolders(s.(sparseSets := sets), t, e, c);
    SameShapeArchetype(s.(sparseSets := sets), t, b);
    HasByArchetype(s, e, c);
    HasByArchetype(t, e, c);
    hide SameShape, MovedTo;
    SetSideAfterRemoval(s, t, e, c, c in gone, sets[c]);
  }

  lemma SetSideAfterRemoval(s: Store, t: Store, e: nat, c: ComponentId, lost: bool, after: SparseSet)
    requires c in s.sparseSets && SetSide(s.archetypes, s.meta, c, s.sparseSets[c], {})
    requires forall i: nat :: i != e ==>
               (i in after.sparse <==> i in s.sparseSets[c].sparse) && after.Owner(i) == s.sparseSets[c].Owner(i)
    requires if lost then e !in after.sparse else after == s.sparseSets[c]
    requires HasComponent(t.archetypes, t.meta, e, c) <==> HasComponent(s.archetypes, s.meta, e, c) && !lost
    requires |t.meta| == |s.meta| && forall i :: 0 <= i < |s.meta| ==> t.meta[i].generation == s.meta[i].generation
    requires forall i: nat :: i != e ==>
               (HasComponent(t.archetypes, t.meta, i, c) <==> HasComponent(s.archetypes, s.meta, i, c))
    ensures SetSide(t.archetypes, t.meta, c, after, {})
  {
    hide Archetype.ComponentSet, HasComponent;
    assert e in s.sparseSets[c].sparse <==> HasComponent(s.archetypes, s.meta, e, c);
  }

  lemma RemoveKeepsData(s: Store, t: Store, e: nat, a: nat, b: nat, gone: set<ComponentId>,
                        sets: map<ComponentId, SparseSet>)
    requires Coherent(s) && DataInv(s)
    requires At(s.meta, e).Some?
    requires SetsRemoved(s.sparseSets, sets, EntityAt(s, e), gone)
    requires MovedTo(s.(sparseSets := sets), t, e, b)
    requires At(s.meta, e).value.archetypeId == a && a < |s.archetypes| && b < |s.archetypes|
    requires s.archetypes[b].ComponentSet() == s.archetypes[a].ComponentSet() - gone
    requires t.tables[At(t.meta, e).value.tableId].columns.Keys <= s.tables[At(s.meta, e).value.tableId].columns.Keys
    ensures DataInv(t)
  {
    var s' := s.(sparseSets := sets);
    assert t.components == s.components;
    hide SameShape, OthersKept, RowCarried, InitialisedExcept, ArchetypeSide, TableSide, SetSide;
    hide Archetype.ComponentSet;
    hide AllocatorWf, SetsRemoved;
    RemoveInitialises(s', t, e, b);
    AllocatorSurvives(s', t, e);
    RemovedSetsWf(s.components, s.sparseSets, sets, EntityAt(s, e), gone);
    assert t.sparseSets == sets && TablesWf(t.tables);
    hide Coherent, TablesWf;
    assert SparseSide(t.archetypes, t.meta, t.sparseSets, {}) by {
      forall c | c in t.sparseSets
        ensures SetSide(t.archetypes, t.meta, c, t.sparseSets[c], {})
      {
        assert SetSide(s.archetypes, s.meta, c, s.sparseSets[c], {});
        RemoveEmptiesOneSet(s, t, e, a, b, gone, sets, c);
      }
    }
    hide SparseSetsWf, SparseSide;
  }

  lemma RemovedSetsWf(infos: seq<ComponentInfo>, sets: map<ComponentId, SparseSet>, sets': map<ComponentId, SparseSet>,
                      e: Entity, gone: set<ComponentId>)
    requires SparseSetsWf(infos, sets) && SetsRemoved(sets, sets', e, gone)
    ensures SparseSetsWf(infos, sets') && sets'.Keys == sets.Keys
  {
    hide SameElsewhere, SparseSet.Wf, SparseSet.Get;
    forall c | c in sets'
      ensures sets'[c].Wf()
    {
      assert SetRemoved(sets[c], sets'[c], e, c in gone);
    }
  }

  /** Fewer components, fewer columns: exactly the table components outside `gone`. */
  lemma FewerColumns(s: Store, a: nat, b: nat, gone: set<ComponentId>)
    requires GraphInv(s)
    requires a < |s.archetypes| && b < |s.archetypes|
    requires s.archetypes[b].ComponentSet() == s.archetypes[a].ComponentSet() - gone
    ensures s.archetypes[a].tableId < |s.tables| && s.archetypes[b].tableId < |s.tables|
    ensures forall c: ComponentId :: c in s.tables[s.archetypes[b].tableId].columns <==>
              c in s.tables[s.archetypes[a].tableId].columns && c !in gone
  {
    hide BundlesWf, TablesCanonical, ByComponentsExact, EdgesExact, ArchetypesWf;
    forall c: ComponentId
      ensures s.archetypes[a].tableId < |s.tables| && s.archetypes[b].tableId < |s.tables|
      ensures c in s.tables[s.archetypes[b].tableId].columns <==>
                c in s.tables[s.archetypes[a].tableId].columns && c !in gone
    {
      ColumnsOfArchetype(s, a, c);
      ColumnsOfArchetype(s, b, c);
    }
    ColumnsOfArchetype(s, a, 0);
    ColumnsOfArchetype(s, b, 0);
  }

  /** The whole of `remove_bundle` on components the entity has: drop the sparse ones, then move. */
  lemma RemoveEffect(s: Store, t: Store, e: nat, a: nat, b: nat, gone: set<ComponentId>,
                     sets: map<ComponentId, SparseSet>)
    requires Inv(s)
    requires At(s.meta, e).Some?
    requires SetsRemoved(s.sparseSets, sets, EntityAt(s, e), gone)
    requires MovedTo(s.(sparseSets := sets), t, e, b)
    requires At(s.meta, e).value.archetypeId == a && a < |s.archetypes| && b < |s.archetypes|
    requires s.archetypes[b].ComponentSet() == s.archetypes[a].ComponentSet() - gone
    ensures Inv(t)
    ensures EntityAt(s, e) in Abs(s) && Abs(t) == Abs(s)[EntityAt(s, e) := Abs(s)[EntityAt(s, e)] - gone]
  {
    var s' := s.(sparseSets := sets);
    assert GraphInv(s') by {
      hide Coherent, DataInv, GraphInv;
      SameGraph(s, s');
    }
    RemoveParts(s, t, e, a, b, gone, sets);
    hide GraphInv, Coherent, DataInv, RowCarried, OthersKept, InitialisedExcept, SetsRemoved;
    SameShapeKeepsGraph(s', t);
  }

  lemma RemoveParts(s: Store, t: Store, e: nat, a: nat, b: nat, gone: set<ComponentId>,
                    sets: map<ComponentId, SparseSet>)
    requires Inv(s)
    requires At(s.meta, e).Some?
    requires SetsRemoved(s.sparseSets, sets, EntityAt(s, e), gone)
    requires MovedTo(s.(sparseSets := sets), t, e, b)
    requires At(s.meta, e).value.archetypeId == a && a < |s.archetypes| && b < |s.archetypes|
    requires s.archetypes[b].ComponentSet() == s.archetypes[a].ComponentSet() - gone
    ensures Coherent(t) && DataInv(t)
    ensures EntityAt(s, e) in Abs(s) && Abs(t) == Abs(s)[EntityAt(s, e) := Abs(s)[EntityAt(s, e)] - gone]
  {
    var s' := s.(sparseSets := sets);
    hide GraphInv, SetsRemoved, RowCarried, InitialisedExcept, Archetype.ComponentSet;
    FewerColumns(s, a, b, gone);
    MoveLands(s', t, e, a, b);
    assert forall c: ComponentId :: c in t.tables[At(t.meta, e).value.tableId].columns <==>
             c in s.tables[At(s.meta, e).value.tableId].columns && c !in gone;
    assert Alive(t.meta) == Alive(s.meta);
    hide SameShape, OthersKept, ArchetypeSide, TableSide;
    InvTables(s);
    RemoveKeepsData(s, t, e, a, b, gone, sets);
    hide DataInv, Coherent;
    forall x: Entity, c: ComponentId
      ensures Lookup(t, x, c) == if x == EntityAt(s, e) && c in gone then None else Lookup(s, x, c)
    {
      RemoveLookups(s, t, e, b, gone, sets, x, c);
    }
    assert EntityAt(s, e) in Alive(s.meta);
    RemoveAbs(s, t, e, b, gone, sets);
  }

  // ---- taking an entity out ----------------------------------------------------------------

  /** `EntityWorldMut::despawn`: free the index, leave both rows, leave the sparse sets. */
  function Despawned(s: Store, e: nat, sets: map<ComponentId, SparseSet>): Store
    requires Coherent(s) && TablesWf(s.tables)
    requires At(s.meta, e).Some? && 1 <= s.meta[e].generation <= MAX_GENERATION
  {
    var out := OutOfTable(OutOfArchetype(s, e), e);
    out.(meta := out.meta[e := EntityMeta(NextGeneration(s.meta[e].generation), None)],
         pending := s.pending + [e], sparseSets := sets)
  }

  lemma DespawnShape(s: Store, e: nat, sets: map<ComponentId, SparseSet>)
    requires Coherent(s) && TablesWf(s.tables)
    requires At(s.meta, e).Some? && 1 <= s.meta[e].generation <= MAX_GENERATION
    ensures var t := Despawned(s, e, sets);
            && Coherent(t) && TablesWf(t.tables) && SameShape(s, t) && OthersKept(s, t, e)
            && t.tables == TableWithoutRow(s.tables, At(s.meta, e).value.tableId, At(s.meta, e).value.tableRow)
  {
    var mid := OutOfArchetype(s, e);
    var out := OutOfTable(mid, e);
    var t := Despawned(s, e, sets);
    LeavingKeepsShape(s, e);
    LeavingKeepsOthers(s, e);
    LeavingTableKeepsOthers(mid, e);
    OthersKeptIsTransitive(s, mid, out, e);
    DespawnForgets(out, t, e);
    hide ArchetypeSide, TableSide, OthersKept;
    OthersKeptIsTransitive(s, out, t, e);
  }

  lemma DespawnForgets(out: Store, t: Store, e: nat)
    requires ArchetypeSide(out.archetypes, out.meta, {e}) && TableSide(out.tables, out.meta, {e})
             && TablesWf(out.tables)
    requires e < |out.meta| && t.archetypes == out.archetypes && t.tables == out.tables
    requires |t.meta| == |out.meta| && t.meta == out.meta[e := EntityMeta(t.meta[e].generation, None)]
    ensures Coherent(t) && OthersKept(out, t, e)
  {
  }

  lemma DespawnEmptiesOneSet(s: Store, e: nat, gone: set<ComponentId>, sets: map<ComponentId, SparseSet>,
                             c: ComponentId)
    requires Coherent(s) && TablesWf(s.tables)
    requires At(s.meta, e).Some? && 1 <= s.meta[e].generation <= MAX_GENERATION
    requires c in s.sparseSets && c in sets && SetSide(s.archetypes, s.meta, c, s.sparseSets[c], {})
    requires SetsRemoved(s.sparseSets, sets, EntityAt(s, e), gone)
    requires HasComponent(s.archetypes, s.meta, e, c) ==> c in gone
    ensures var t := Despawned(s, e, sets); SetSide(t.archetypes, t.meta, c, t.sparseSets[c], {})
  {
    var t := Despawned(s, e, sets);
    assert e in s.sparseSets[c].sparse <==> HasComponent(s.archetypes, s.meta, e, c);
    hide Coherent, SetSide;
    DespawnShape(s, e, sets);
    hide OutOfTable, OutOfArchetype;
    DespawnHolders(s, t, e, c);
    hide SameShape, OthersKept, Despawned;
    SetWithoutEntity(s, t, e, c, sets[c]);
  }

  lemma DespawnHolders(s: Store, t: Store, e: nat, c: ComponentId)
    requires SameShape(s, t) && OthersKept(s, t, e) && e < |s.meta|
    ensures forall i: nat :: i != e ==>
              (HasComponent(t.archetypes, t.meta, i, c) <==> HasComponent(s.archetypes, s.meta, i, c))
    ensures forall i: nat :: i < |s.meta| && i != e ==> i < |t.meta| && t.meta[i].generation == s.meta[i].generation
    ensures |t.meta| == |s.meta|
  {
    forall i: nat | i != e
      ensures HasComponent(t.archetypes, t.meta, i, c) <==> HasComponent(s.archetypes, s.meta, i, c)
    {
      if i < |s.meta| && s.meta[i].location.Some? && s.meta[i].location.value.archetypeId < |s.archetypes| {
        SameShapeArchetype(s, t, s.meta[i].location.value.archetypeId);
      }
    }
  }

  lemma SetWithoutEntity(s: Store, t: Store, e: nat, c: ComponentId, after: SparseSet)
    requires c in s.sparseSets && SetSide(s.archetypes, s.meta, c, s.sparseSets[c], {})
    requires e !in after.sparse && e < |t.meta| && t.meta[e].location.None?
    requires forall i: nat :: i != e ==>
               (i in after.sparse <==> i in s.sparseSets[c].sparse) && after.Owner(i) == s.sparseSets[c].Owner(i)
    requires forall i: nat :: i != e ==>
               (HasComponent(t.archetypes, t.meta, i, c) <==> HasComponent(s.archetypes, s.meta, i, c))
    requires forall i: nat :: i < |s.meta| && i != e ==> i < |t.meta| && t.meta[i].generation == s.meta[i].generation
    ensures SetSide(t.archetypes, t.meta, c, after, {})
  {
    hide Archetype.ComponentSet;
  }

  lemma DespawnAllocator(s: Store, t: Store, e: nat)
    requires AllocatorWf(s.meta, s.pending) && At(s.meta, e).Some?
    requires OthersKept(s, t, e) && t.pending == s.pending + [e]
    requires t.meta[e] == EntityMeta(NextGeneration(s.meta[e].generation), None)
    ensures AllocatorWf(t.meta, t.pending)
  {
  }

  lemma DespawnAlive(s: Store, t: Store, e: nat)
    requires OthersKept(s, t, e) && At(s.meta, e).Some? && e < |t.meta| && t.meta[e].location.None?
    ensures Alive(t.meta) == Alive(s.meta) - {EntityAt(s, e)}
  {
    forall x: Entity
      ensures x in Alive(t.meta) <==> x in Alive(s.meta) && x != EntityAt(s, e)
    {
      InAlive(s.meta, x);
      InAlive(t.meta, x);
    }
  }

  lemma DespawnLookups(s: Store, t: Store, e: nat)
    requires Coherent(s) && TablesWf(s.tables) && Coherent(t) && TablesWf(t.tables)
    requires SameShape(s, t) && OthersKept(s, t, e)
    requires forall c, i :: c in s.sparseSets && i != e ==>
               c in t.sparseSets && t.sparseSets[c].Get(i) == s.sparseSets[c].Get(i)
    requires t.sparseSets.Keys == s.sparseSets.Keys
    ensures forall x: Entity, c: ComponentId :: x.index != e ==> Lookup(t, x, c) == Lookup(s, x, c)
  {
    var s' := s.(sparseSets := t.sparseSets);
    hide ArchetypeSide;
    forall x: Entity, c: ComponentId | x.index != e
      ensures Lookup(t, x, c) == Lookup(s, x, c)
    {
      BystanderLookup(s', t, e, x, c);
      hide TableSide, OthersKept, TablesWf;
    }
  }

  lemma DespawnAbs(s: Store, e: nat, gone: set<ComponentId>, sets: map<ComponentId, SparseSet>)
    requires Coherent(s) && TablesWf(s.tables)
    requires At(s.meta, e).Some? && 1 <= s.meta[e].generation <= MAX_GENERATION
    requires SetsRemoved(s.sparseSets, sets, EntityAt(s, e), gone)
    ensures Abs(Despawned(s, e, sets)) == Abs(s) - {EntityAt(s, e)}
  {
    var t := Despawned(s, e, sets);
    DespawnShape(s, e, sets);
    assert t.components == s.components && t.meta[e].location.None? && t.sparseSets == sets;
    hide Coherent, Despawned, SameShape, OthersKept, Lookup, TableWithoutRow;
    DespawnLookups(s, t, e);
    DespawnAlive(s, t, e);
    hide SetsRemoved, TablesWf;
    forall x | x in Alive(s.meta) && x != EntityAt(s, e)
      ensures x.index != e
    {
      InAlive(s.meta, x);
    }
    OneEntityLess(s, t, EntityAt(s, e));
  }

  lemma OneEntityLess(s: Store, t: Store, e: Entity)
    requires t.components == s.components && Alive(t.meta) == Alive(s.meta) - {e}
    requires forall x, c :: x in Alive(s.meta) && x != e ==> Lookup(t, x, c) == Lookup(s, x, c)
    ensures Abs(t) == Abs(s) - {e}
  {
    hide Lookup, Alive;
    forall x | x in Alive(s.meta) && x != e
      ensures ComponentsOf(t, x) == ComponentsOf(s, x)
    {
    }
  }

  /** The whole of `despawn`. `gone` covers every sparse component the entity had. */
  lemma DespawnEffect(s: Store, e: nat, gone: set<ComponentId>, sets: map<ComponentId, SparseSet>)
    requires Inv(s)
    requires TablesWf(s.tables)
    requires At(s.meta, e).Some? && 1 <= s.meta[e].generation <= MAX_GENERATION
    requires SetsRemoved(s.sparseSets, sets, EntityAt(s, e), gone)
    requires forall c :: c in s.sparseSets && HasComponent(s.archetypes, s.meta, e, c) ==> c in gone
    ensures Inv(Despawned(s, e, sets))
    ensures Abs(Despawned(s, e, sets)) == Abs(s) - {EntityAt(s, e)}
  {
    var t := Despawned(s, e, sets);
    var s' := s.(sparseSets := sets);
    hide GraphInv, SetSide, HasComponent, Abs, InitialisedExcept, ArchetypeSide, TableSide;
    InvParts(s);
    DespawnShape(s, e, sets);
    DespawnAbs(s, e, gone, sets);
    RowRemovalInitialised(s.tables, At(s.meta, e).value.tableId, At(s.meta, e).value.tableRow);
    DespawnKeepsSets(s, e, gone, sets);
    SameShapeKeepsGraph(s, t);
    DespawnAllocator(s, t, e);
    hide SameShape, OthersKept, Despawned, SetsRemoved, AllocatorWf, SparseSetsWf, SparseSide, TableWithoutRow;
  }

  lemma DespawnKeepsSets(s: Store, e: nat, gone: set<ComponentId>, sets: map<ComponentId, SparseSet>)
    requires Coherent(s) && TablesWf(s.tables)
    requires SparseSetsWf(s.components, s.sparseSets) && SparseSide(s.archetypes, s.meta, s.sparseSets, {})
    requires At(s.meta, e).Some? && 1 <= s.meta[e].generation <= MAX_GENERATION
    requires SetsRemoved(s.sparseSets, sets, EntityAt(s, e), gone)
    requires forall c :: c in s.sparseSets && HasComponent(s.archetypes, s.meta, e, c) ==> c in gone
    ensures var t := Despawned(s, e, sets);
            SparseSetsWf(t.components, t.sparseSets) && SparseSide(t.archetypes, t.meta, t.sparseSets, {})
  {
    var t := Despawned(s, e, sets);
    hide Coherent, SetSide, HasComponent, SetsRemoved, TablesWf, OutOfTable, OutOfArchetype;
    assert t.sparseSets == sets && t.components == s.components;
    hide Despawned;
    RemovedSetsWf(s.components, s.sparseSets, sets, EntityAt(s, e), gone);
    hide SparseSetsWf;
    forall c | c in t.sparseSets
      ensures SetSide(t.archetypes, t.meta, c, t.sparseSets[c], {})
    {
      assert SetSide(s.archetypes, s.meta, c, s.sparseSets[c], {});
      DespawnEmptiesOneSet(s, e, gone, sets, c);
    }
  }
}
