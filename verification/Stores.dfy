/**
  The state of an ECS world, and what must hold of it between calls: the archetype graph
  (`GraphInv`), the entity indexes (`ArchetypeSide`, `TableSide`), and the component data (`DataInv`).
 */
module Stores {
  import opened Collections
  import opened Storage
  import opened Locations

  datatype ComponentInfo = ComponentInfo(storage: StorageType, hooks: Flags)

  datatype Store = Store(
    components: seq<ComponentInfo>,
    bundles: seq<seq<ComponentId>>,
    archetypes: seq<Archetype>,
    byComponents: map<(seq<ComponentId>, seq<ComponentId>), nat>,
    tables: seq<Table>,
    tableIds: map<seq<ComponentId>, nat>,
    sparseSets: map<ComponentId, SparseSet>,
    meta: seq<EntityMeta>,
    pending: seq<nat>)

  const MAX_GENERATION: nat := 0x7FFF_FFFF

  // ---- what a caller can observe -----------------------------------------------------------

  /** Reading one component of one entity: `Entities::get`, then the storage the component lives in. */
  function Lookup(s: Store, e: Entity, c: ComponentId): Option<Cell> {
    match EntitiesGet(s.meta, e)
    case None => None
    case Some(l) =>
      if |s.components| <= c then None
      else if s.components[c].storage == InTable then
        if l.tableId < |s.tables| && c in s.tables[l.tableId].columns
           && l.tableRow < |s.tables[l.tableId].columns[c]| && s.tables[l.tableId].columns[c][l.tableRow].Init?
        then Some(s.tables[l.tableId].columns[c][l.tableRow].cell)
        else None
      else if c in s.sparseSets then s.sparseSets[c].Get(e.index)
      else None
  }

  function Alive(meta: seq<EntityMeta>): set<Entity> {
    set i | 0 <= i < |meta| && meta[i].location.Some? :: Entity(i, meta[i].generation)
  }

  type Components = map<ComponentId, Cell>

  function ComponentsOf(s: Store, e: Entity): Components {
    map c | 0 <= c < |s.components| && Lookup(s, e, c).Some? :: Lookup(s, e, c).value
  }

  /** The simple thing a world implements: a finite map from live entities to their components. */
  function Abs(s: Store): map<Entity, Components> {
    map e | e in Alive(s.meta) :: ComponentsOf(s, e)
  }

  // ---- the archetype graph ----------------------------------------------------------------

  /** `Archetype::table_components` and `sparse_set_components`: filters over the insertion order. */
  function WithStorage(cs: seq<ArchetypeComponent>, st: StorageType): seq<ComponentId> {
    if cs == [] then []
    else (if cs[0].storage == st then [cs[0].id] else []) + WithStorage(cs[1..], st)
  }

  function TableComponents(a: Archetype): seq<ComponentId> {
    WithStorage(a.components, InTable)
  }

  function SparseComponents(a: Archetype): seq<ComponentId> {
    WithStorage(a.components, InSparseSet)
  }

  /** One component of an archetype: registered, and kept in the storage it was registered for. */
  ghost predicate ComponentsRegistered(infos: seq<ComponentInfo>, a: Archetype) {
    forall k :: 0 <= k < |a.components| ==>
      a.components[k].id < |infos| && infos[a.components[k].id].storage == a.components[k].storage
  }

  ghost predicate FlagsExact(infos: seq<ComponentInfo>, a: Archetype)
    requires ComponentsRegistered(infos, a)
  {
    && (a.flags.onAdd <==> exists k :: 0 <= k < |a.components| && infos[a.components[k].id].hooks.onAdd)
    && (a.flags.onInsert <==> exists k :: 0 <= k < |a.components| && infos[a.components[k].id].hooks.onInsert)
    && (a.flags.onRemove <==> exists k :: 0 <= k < |a.components| && infos[a.components[k].id].hooks.onRemove)
  }

  ghost predicate BundlesWf(infos: seq<ComponentInfo>, bundles: seq<seq<ComponentId>>) {
    forall b :: 0 <= b < |bundles| ==>
      NoDuplicates(bundles[b]) && (forall k :: 0 <= k < |bundles[b]| ==> bundles[b][k] < |infos|)
  }

  /** The table an archetype with these table components may use. */
  ghost predicate CanonicalTable(tableIds: map<seq<ComponentId>, nat>, ids: seq<ComponentId>, t: nat) {
    (ids in tableIds && tableIds[ids] == t) || (ids == [] && t == 0)
  }

  ghost predicate ArchetypeWf(infos: seq<ComponentInfo>, tables: seq<Table>, tableIds: map<seq<ComponentId>, nat>,
                              a: Archetype)
  {
    && ComponentsRegistered(infos, a)
    && FlagsExact(infos, a)
    && StrictlySorted(TableComponents(a))
    && StrictlySorted(SparseComponents(a))
    && a.tableId < |tables|
    && tables[a.tableId].columns.Keys == ToSet(TableComponents(a))
    && CanonicalTable(tableIds, TableComponents(a), a.tableId)
  }

  ghost predicate TablesCanonical(tables: seq<Table>, tableIds: map<seq<ComponentId>, nat>) {
    && |tables| > 0 && tables[0].columns.Keys == {}
    && (forall ids :: ids in tableIds ==>
          && StrictlySorted(ids)
          && 0 < tableIds[ids] < |tables|
          && tables[tableIds[ids]].columns.Keys == ToSet(ids))
  }

  /** `by_components` and the archetype list are inverse to each other. */
  ghost predicate ByComponentsExact(archetypes: seq<Archetype>,
                                    byComponents: map<(seq<ComponentId>, seq<ComponentId>), nat>)
  {
    && (forall key :: key in byComponents ==>
          && byComponents[key] < |archetypes|
          && TableComponents(archetypes[byComponents[key]]) == key.0
          && SparseComponents(archetypes[byComponents[key]]) == key.1)
    && (forall a :: 0 <= a < |archetypes| ==>
          var key := (TableComponents(archetypes[a]), SparseComponents(archetypes[a]));
          key in byComponents && byComponents[key] == a)
  }

  /** A cached `add` edge says what recomputing the target archetype would say. */
  ghost predicate AddEdgeExact(archetypes: seq<Archetype>, a: nat, bundle: seq<ComponentId>, edge: AddBundle)
    requires a < |archetypes|
  {
    var here := archetypes[a].ComponentSet();
    && edge.archetypeId < |archetypes|
    && archetypes[edge.archetypeId].ComponentSet() == here + ToSet(bundle)
    && |edge.bundleStatus| == |bundle|
    && (forall k :: 0 <= k < |bundle| ==> (edge.bundleStatus[k] == Mutated <==> bundle[k] in here))
    && edge.added == Without(bundle, here)
  }

  ghost predicate RemoveEdgeExact(archetypes: seq<Archetype>, a: nat, bundle: seq<ComponentId>, target: Option<nat>)
    requires a < |archetypes|
  {
    && target.Some? && target.value < |archetypes|
    && archetypes[target.value].ComponentSet() == archetypes[a].ComponentSet() - ToSet(bundle)
  }

  ghost predicate TakeEdgeExact(archetypes: seq<Archetype>, a: nat, bundle: seq<ComponentId>, target: Option<nat>)
    requires a < |archetypes|
  {
    && (target.Some? <==> ToSet(bundle) <= archetypes[a].ComponentSet())
    && (target.Some? ==> RemoveEdgeExact(archetypes, a, bundle, target))
  }

  /** All three edge caches of archetype `a` are exact. */
  ghost predicate EdgesOfExact(archetypes: seq<Archetype>, bundles: seq<seq<ComponentId>>, a: nat, edges: Edges)
    requires a < |archetypes|
  {
    && (forall b :: b in edges.addBundle ==>
          b < |bundles| && AddEdgeExact(archetypes, a, bundles[b], edges.addBundle[b]))
    && (forall b :: b in edges.removeBundle ==>
          b < |bundles| && RemoveEdgeExact(archetypes, a, bundles[b], edges.removeBundle[b]))
    && (forall b :: b in edges.takeBundle ==>
          b < |bundles| && TakeEdgeExact(archetypes, a, bundles[b], edges.takeBundle[b]))
  }

  ghost predicate EdgesExact(archetypes: seq<Archetype>, bundles: seq<seq<ComponentId>>) {
    forall a :: 0 <= a < |archetypes| ==> EdgesOfExact(archetypes, bundles, a, archetypes[a].edges)
  }

  ghost predicate ArchetypesWf(s: Store) {
    && |s.archetypes| > 0 && s.archetypes[0].components == [] && s.archetypes[0].tableId == 0
    && (forall a :: 0 <= a < |s.archetypes| ==>
          s.archetypes[a].id == a && ArchetypeWf(s.components, s.tables, s.tableIds, s.archetypes[a]))
  }

  ghost predicate GraphInv(s: Store) {
    && BundlesWf(s.components, s.bundles)
    && TablesCanonical(s.tables, s.tableIds)
    && ArchetypesWf(s)
    && ByComponentsExact(s.archetypes, s.byComponents)
    && EdgesExact(s.archetypes, s.bundles)
  }

  // ---- component data ------------------------------------------------------------------------

  ghost predicate TablesWf(tables: seq<Table>) {
    forall t :: 0 <= t < |tables| ==> tables[t].Wf()
  }

  /** Every slot is initialised, except possibly in row `row` of table `t`. */
  ghost predicate InitialisedExcept(tables: seq<Table>, t: int, row: int) {
    forall u, c, r :: 0 <= u < |tables| && c in tables[u].columns && 0 <= r < |tables[u].columns[c]|
                      && !(u == t && r == row) ==>
      tables[u].columns[c][r].Init?
  }

  ghost predicate HasComponent(archetypes: seq<Archetype>, meta: seq<EntityMeta>, i: nat, c: ComponentId) {
    && i < |meta| && meta[i].location.Some?
    && meta[i].location.value.archetypeId < |archetypes|
    && c in archetypes[meta[i].location.value.archetypeId].ComponentSet()
  }

  ghost predicate SparseSetsWf(infos: seq<ComponentInfo>, sparseSets: map<ComponentId, SparseSet>) {
    && (forall c :: c in sparseSets <==> 0 <= c < |infos| && infos[c].storage == InSparseSet)
    && (forall c :: c in sparseSets ==> sparseSets[c].Wf())
  }

  /** The set of component `c` holds exactly the live entities whose archetype lists `c` (`out` aside). */
  ghost predicate SetSide(archetypes: seq<Archetype>, meta: seq<EntityMeta>, c: ComponentId, set_: SparseSet,
                          out: set<nat>)
  {
    && (forall i: nat :: i !in out ==> (i in set_.sparse <==> HasComponent(archetypes, meta, i, c)))
    && (forall i: nat :: i in set_.sparse ==> i < |meta| && set_.Owner(i) == Some(Entity(i, meta[i].generation)))
  }

  ghost predicate SparseSide(archetypes: seq<Archetype>, meta: seq<EntityMeta>, sparseSets: map<ComponentId, SparseSet>,
                             out: set<nat>)
  {
    forall c :: c in sparseSets ==> SetSide(archetypes, meta, c, sparseSets[c], out)
  }

  /** The free list holds distinct, unplaced indexes; generations fit in 31 bits and are not 0. */
  ghost predicate AllocatorWf(meta: seq<EntityMeta>, pending: seq<nat>) {
    && NoDuplicates(pending)
    && (forall k :: 0 <= k < |pending| ==> pending[k] < |meta| && meta[pending[k]].location.None?)
    && (forall i :: 0 <= i < |meta| ==> 1 <= meta[i].generation <= MAX_GENERATION)
  }

  ghost predicate Coherent(s: Store) {
    && ArchetypeSide(s.archetypes, s.meta, {})
    && TableSide(s.tables, s.meta, {})
  }

  ghost predicate DataInv(s: Store) {
    && TablesWf(s.tables)
    && InitialisedExcept(s.tables, -1, -1)
    && SparseSetsWf(s.components, s.sparseSets)
    && SparseSide(s.archetypes, s.meta, s.sparseSets, {})
    && AllocatorWf(s.meta, s.pending)
  }

  ghost predicate Inv(s: Store) {
    GraphInv(s) && Coherent(s) && DataInv(s)
  }

  lemma InvParts(s: Store)
    requires Inv(s)
    ensures GraphInv(s) && Coherent(s) && DataInv(s)
  {
    hide GraphInv, Coherent, DataInv;
  }

  // ---- consequences --------------------------------------------------------------------------

  lemma {:induction false} WithStorageMembers(cs: seq<ArchetypeComponent>, st: StorageType)
    ensures ToSet(WithStorage(cs, st)) == set k | 0 <= k < |cs| && cs[k].storage == st :: cs[k].id
  {
    if cs != [] {
      WithStorageMembers(cs[1..], st);
      var rest := WithStorage(cs[1..], st);
      forall x
        ensures x in ToSet(WithStorage(cs, st)) <==> exists k :: 0 <= k < |cs| && cs[k].storage == st && cs[k].id == x
      {
        assert x in rest <==> x in ToSet(rest);
        if k :| 0 <= k < |cs| && cs[k].storage == st && cs[k].id == x {
          if k > 0 {
            assert cs[1..][k - 1] == cs[k];
          }
        }
        if x in rest {
          var k :| 0 <= k < |cs[1..]| && cs[1..][k].storage == st && cs[1..][k].id == x;
          assert cs[k + 1] == cs[1..][k];
        }
      }
    }
  }

  lemma ComponentSetSplits(a: Archetype)
    ensures a.ComponentSet() == ToSet(TableComponents(a)) + ToSet(SparseComponents(a))
  {
    WithStorageMembers(a.components, InTable);
    WithStorageMembers(a.components, InSparseSet);
    forall x | x in a.ComponentSet()
      ensures x in ToSet(TableComponents(a)) + ToSet(SparseComponents(a))
    {
      var k :| 0 <= k < |a.components| && a.components[k].id == x;
      assert a.components[k].storage == InTable || a.components[k].storage == InSparseSet;
    }
  }

  /** The components of an archetype, split by the storage they were registered with. */
  lemma StorageDecides(infos: seq<ComponentInfo>, a: Archetype)
    requires ComponentsRegistered(infos, a)
    ensures forall c :: c in a.ComponentSet() ==> c < |infos|
    ensures forall c :: c in ToSet(TableComponents(a)) <==> c in a.ComponentSet() && infos[c].storage == InTable
    ensures forall c :: c in ToSet(SparseComponents(a)) <==> c in a.ComponentSet() && infos[c].storage == InSparseSet
  {
    WithStorageMembers(a.components, InTable);
    WithStorageMembers(a.components, InSparseSet);
  }

  /** Entity `e` occupies this archetype row and this table row, and they belong together. */
  ghost predicate StandsIn(s: Store, e: Entity, l: EntityLocation) {
    && l.archetypeId < |s.archetypes| && l.archetypeRow < |s.archetypes[l.archetypeId].entities|
    && s.archetypes[l.archetypeId].entities[l.archetypeRow] == ArchetypeEntity(e, l.tableRow)
    && s.archetypes[l.archetypeId].tableId == l.tableId
    && l.tableId < |s.tables| && l.tableRow < |s.tables[l.tableId].entities|
    && s.tables[l.tableId].entities[l.tableRow] == e
  }

  /** The metadata, the archetype rows and the table rows are inverse to each other. */
  lemma IndexesAreInverse(s: Store, e: Entity, l: EntityLocation)
    requires Coherent(s)
    ensures EntitiesGet(s.meta, e) == Some(l) <==> StandsIn(s, e, l)
  {
    if EntitiesGet(s.meta, e) == Some(l) {
      assert InArchetypeRow(s.archetypes, s.meta, e.index) && InTableRow(s.tables, s.meta, e.index);
    }
    if StandsIn(s, e, l) {
      assert ArchetypeRowIsOf(s.meta, l.archetypeId, l.archetypeRow, e.index, {});
      assert InArchetypeRow(s.archetypes, s.meta, e.index);
    }
  }

  lemma TableLookup(s: Store, e: Entity, c: ComponentId)
    requires EntitiesGet(s.meta, e).Some?
    requires TableSide(s.tables, s.meta, {}) && TablesWf(s.tables) && InitialisedExcept(s.tables, -1, -1)
    requires c < |s.components| && s.components[c].storage == InTable
    ensures EntitiesGet(s.meta, e).value.tableId < |s.tables|
    ensures Lookup(s, e, c).Some? <==> c in s.tables[EntitiesGet(s.meta, e).value.tableId].columns
  {
  }

  lemma SparseLookup(s: Store, e: Entity, c: ComponentId)
    requires EntitiesGet(s.meta, e).Some?
    requires SparseSetsWf(s.components, s.sparseSets)
    requires SparseSide(s.archetypes, s.meta, s.sparseSets, {})
    requires c < |s.components| && s.components[c].storage == InSparseSet
    ensures Lookup(s, e, c).Some? <==> HasComponent(s.archetypes, s.meta, e.index, c)
  {
    assert SetSide(s.archetypes, s.meta, c, s.sparseSets[c], {});
    assert e.index in s.sparseSets[c].sparse <==> HasComponent(s.archetypes, s.meta, e.index, c);
  }

  /** What a live entity can be asked for is exactly what its archetype lists. */
  lemma LookupMatchesArchetype(s: Store, e: Entity, c: ComponentId)
    requires Inv(s)
    requires EntitiesGet(s.meta, e).Some?
    ensures EntitiesGet(s.meta, e).value.archetypeId < |s.archetypes|
    ensures Lookup(s, e, c).Some? ==> c < |s.components|
    ensures Lookup(s, e, c).Some? <==>
              c in s.archetypes[EntitiesGet(s.meta, e).value.archetypeId].ComponentSet()
  {
    var l := EntitiesGet(s.meta, e).value;
    assert InArchetypeRow(s.archetypes, s.meta, e.index);
    InvParts(s);
    hide Coherent, GraphInv, ArchetypeSide;
    var a := s.archetypes[l.archetypeId];
    ArchetypeIsWf(s, l.archetypeId);
    StorageDecides(s.components, a);
    hide Inv, Archetype.ComponentSet;
    if c < |s.components| {
      if s.components[c].storage == InTable {
        InTableOf(s, e, c);
      } else {
        InSetOf(s, e, c);
      }
    }
  }

  lemma ArchetypeIsWf(s: Store, a: nat)
    requires GraphInv(s) && a < |s.archetypes|
    ensures ArchetypeWf(s.components, s.tables, s.tableIds, s.archetypes[a])
  {
    hide BundlesWf, TablesCanonical, ByComponentsExact, EdgesExact, ArchetypeWf;
  }

  lemma InTableOf(s: Store, e: Entity, c: ComponentId)
    requires Coherent(s) && DataInv(s)
    requires EntitiesGet(s.meta, e).Some?
    requires c < |s.components| && s.components[c].storage == InTable
    ensures EntitiesGet(s.meta, e).value.tableId < |s.tables|
    ensures Lookup(s, e, c).Some? <==> c in s.tables[EntitiesGet(s.meta, e).value.tableId].columns
  {
    hide ArchetypeSide, SparseSide, SparseSetsWf, AllocatorWf;
    TableLookup(s, e, c);
  }

  lemma InSetOf(s: Store, e: Entity, c: ComponentId)
    requires DataInv(s)
    requires EntitiesGet(s.meta, e).Some?
    requires c < |s.components| && s.components[c].storage == InSparseSet
    ensures Lookup(s, e, c).Some? <==> HasComponent(s.archetypes, s.meta, e.index, c)
  {
    hide TablesWf, InitialisedExcept, AllocatorWf;
    SparseLookup(s, e, c);
  }

  lemma ComponentsOfMatchArchetype(s: Store, e: Entity)
    requires Inv(s)
    requires EntitiesGet(s.meta, e).Some?
    ensures ComponentsOf(s, e).Keys == s.archetypes[EntitiesGet(s.meta, e).value.archetypeId].ComponentSet()
  {
    hide Inv;
    LookupMatchesArchetype(s, e, 0);
    var a := s.archetypes[EntitiesGet(s.meta, e).value.archetypeId];
    forall c: ComponentId
      ensures c in ComponentsOf(s, e) <==> c in a.ComponentSet()
    {
      LookupMatchesArchetype(s, e, c);
    }
  }
}
