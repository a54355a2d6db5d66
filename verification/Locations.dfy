/**
  Where an entity lives. Three tables of indexes are kept in step by hand: the entity metadata
  (`Entities`), the rows of each archetype, and the rows of each table. Moving or dropping an
  entity swap-removes a row on both sides, and each swap displaces some other entity whose indexes
  have to be patched.
 */
module Locations {
  import opened Collections
  import opened Storage

  datatype ArchetypeEntity = ArchetypeEntity(entity: Entity, tableRow: nat)

  datatype EntityLocation = EntityLocation(archetypeId: nat, archetypeRow: nat, tableId: nat, tableRow: nat)

  /** `location` is `None` for a pending or freed entity (`EntityLocation::INVALID`). */
  datatype EntityMeta = EntityMeta(generation: nat, location: Option<EntityLocation>)

  datatype ComponentStatus = Added | Mutated

  datatype AddBundle = AddBundle(archetypeId: nat, bundleStatus: seq<ComponentStatus>, added: seq<ComponentId>)

  datatype Edges = Edges(
    addBundle: map<nat, AddBundle>,
    removeBundle: map<nat, Option<nat>>,
    takeBundle: map<nat, Option<nat>>)

  datatype Flags = Flags(onAdd: bool, onInsert: bool, onRemove: bool)

  datatype ArchetypeComponent = ArchetypeComponent(id: ComponentId, storage: StorageType, archetypeComponentId: nat)

  datatype Archetype = Archetype(
    id: nat,
    tableId: nat,
    edges: Edges,
    entities: seq<ArchetypeEntity>,
    components: seq<ArchetypeComponent>,
    flags: Flags)
  {
    function ComponentSet(): set<ComponentId> {
      set k | 0 <= k < |components| :: components[k].id
    }
  }

  function At(meta: seq<EntityMeta>, i: nat): Option<EntityLocation> {
    if i < |meta| then meta[i].location else None
  }

  /** `Entities::get`: the location of a live entity of the right generation. */
  function EntitiesGet(meta: seq<EntityMeta>, e: Entity): Option<EntityLocation> {
    if e.index < |meta| && meta[e.index].generation == e.generation then meta[e.index].location else None
  }

  function Relocate(meta: seq<EntityMeta>, i: nat, l: EntityLocation): seq<EntityMeta>
    requires i < |meta|
  {
    meta[i := meta[i].(location := Some(l))]
  }

  /** A placed entity stands in the archetype row its metadata names, and that archetype uses its table. */
  ghost predicate InArchetypeRow(archetypes: seq<Archetype>, meta: seq<EntityMeta>, i: nat)
    requires i < |meta| && meta[i].location.Some?
  {
    var l := meta[i].location.value;
    && l.archetypeId < |archetypes|
    && archetypes[l.archetypeId].tableId == l.tableId
    && l.archetypeRow < |archetypes[l.archetypeId].entities|
    && archetypes[l.archetypeId].entities[l.archetypeRow]
       == ArchetypeEntity(Entity(i, meta[i].generation), l.tableRow)
  }

  ghost predicate ArchetypeRowIsOf(meta: seq<EntityMeta>, a: nat, r: nat, i: nat, out: set<nat>) {
    && i < |meta| && i !in out && meta[i].location.Some?
    && meta[i].location.value.archetypeId == a && meta[i].location.value.archetypeRow == r
  }

  /** Metadata and archetype rows name each other, except that the entities in `out` are in no row. */
  ghost predicate ArchetypeSide(archetypes: seq<Archetype>, meta: seq<EntityMeta>, out: set<nat>) {
    && (forall i :: 0 <= i < |meta| && i !in out && meta[i].location.Some? ==> InArchetypeRow(archetypes, meta, i))
    && (forall a, r :: 0 <= a < |archetypes| && 0 <= r < |archetypes[a].entities| ==>
          ArchetypeRowIsOf(meta, a, r, archetypes[a].entities[r].entity.index, out))
  }

  /** A placed entity stands in the table row its metadata names. */
  ghost predicate InTableRow(tables: seq<Table>, meta: seq<EntityMeta>, i: nat)
    requires i < |meta| && meta[i].location.Some?
  {
    var l := meta[i].location.value;
    && l.tableId < |tables|
    && l.tableRow < |tables[l.tableId].entities|
    && tables[l.tableId].entities[l.tableRow] == Entity(i, meta[i].generation)
  }

  ghost predicate TableRowIsOf(meta: seq<EntityMeta>, t: nat, s: nat, i: nat, out: set<nat>) {
    && i < |meta| && i !in out && meta[i].location.Some?
    && meta[i].location.value.tableId == t && meta[i].location.value.tableRow == s
  }

  /** Metadata and table rows name each other, except that the entities in `out` are in no row. */
  ghost predicate TableSide(tables: seq<Table>, meta: seq<EntityMeta>, out: set<nat>) {
    && (forall i :: 0 <= i < |meta| && i !in out && meta[i].location.Some? ==> InTableRow(tables, meta, i))
    && (forall t, s :: 0 <= t < |tables| && 0 <= s < |tables[t].entities| ==>
          TableRowIsOf(meta, t, s, tables[t].entities[s].index, out))
  }

  // ---- taking an entity out of its archetype ---------------------------------------------

  function ArchetypeWithoutRow(archetypes: seq<Archetype>, a: nat, row: nat): seq<Archetype>
    requires a < |archetypes| && row < |archetypes[a].entities|
  {
    archetypes[a := archetypes[a].(entities := SwapRemove(archetypes[a].entities, row))]
  }

  /** `Archetype::swap_remove`'s `swapped_entity`. */
  function ArchetypeSwapped(archetype: Archetype, row: nat): Option<Entity>
    requires row < |archetype.entities|
  {
    if row == |archetype.entities| - 1 then None else Some(archetype.entities[|archetype.entities| - 1].entity)
  }

  /** The metadata after the entity swapped into `row` has been told its new archetype row. */
  function PatchArchetypeRow(meta: seq<EntityMeta>, swapped: Option<Entity>, row: nat): seq<EntityMeta>
    requires swapped.Some? ==> At(meta, swapped.value.index).Some?
  {
    match swapped
    case None => meta
    case Some(w) => Relocate(meta, w.index, At(meta, w.index).value.(archetypeRow := row))
  }

  lemma LeaveArchetype(archetypes: seq<Archetype>, tables: seq<Table>, meta: seq<EntityMeta>, e: nat)
    requires ArchetypeSide(archetypes, meta, {}) && TableSide(tables, meta, {})
    requires At(meta, e).Some?
    ensures var l := At(meta, e).value;
            var swapped := ArchetypeSwapped(archetypes[l.archetypeId], l.archetypeRow);
            && (swapped.Some? ==> EntitiesGet(meta, swapped.value).Some? && swapped.value.index != e)
            && var archetypes' := ArchetypeWithoutRow(archetypes, l.archetypeId, l.archetypeRow);
               var meta' := PatchArchetypeRow(meta, swapped, l.archetypeRow);
               && ArchetypeSide(archetypes', meta', {e})
               && TableSide(tables, meta', {})
               && meta'[e] == meta[e]
  {
    var l := At(meta, e).value;
    SwappedIntoArchetypeRow(archetypes, meta, e);
    PatchKeepsTableSide(tables, meta, ArchetypeSwapped(archetypes[l.archetypeId], l.archetypeRow), l.archetypeRow);
    hide TableSide;
    LeaveArchetypeSide(archetypes, meta, e);
    hide ArchetypeSide, ArchetypeWithoutRow;
  }

  lemma LeaveArchetypeSide(archetypes: seq<Archetype>, meta: seq<EntityMeta>, e: nat)
    requires ArchetypeSide(archetypes, meta, {}) && At(meta, e).Some?
    requires var l := At(meta, e).value;
             var swapped := ArchetypeSwapped(archetypes[l.archetypeId], l.archetypeRow);
             swapped.Some? ==> EntitiesGet(meta, swapped.value).Some? && swapped.value.index != e
    ensures var l := At(meta, e).value;
            ArchetypeSide(ArchetypeWithoutRow(archetypes, l.archetypeId, l.archetypeRow),
                          PatchArchetypeRow(meta, ArchetypeSwapped(archetypes[l.archetypeId], l.archetypeRow),
                                            l.archetypeRow), {e})
  {
    var l := At(meta, e).value;
    var archetypes' := ArchetypeWithoutRow(archetypes, l.archetypeId, l.archetypeRow);
    var meta' := PatchArchetypeRow(meta, ArchetypeSwapped(archetypes[l.archetypeId], l.archetypeRow), l.archetypeRow);
    var last := |archetypes[l.archetypeId].entities| - 1;
    assert InArchetypeRow(archetypes, meta, e);
    forall i | 0 <= i < |meta'| && i != e && meta'[i].location.Some?
      ensures InArchetypeRow(archetypes', meta', i)
    {
      assert InArchetypeRow(archetypes, meta, i);
    }
    forall a, r | 0 <= a < |archetypes'| && 0 <= r < |archetypes'[a].entities|
      ensures ArchetypeRowIsOf(meta', a, r, archetypes'[a].entities[r].entity.index, {e})
    {
      var r' := if a == l.archetypeId && r == l.archetypeRow then last else r;
      assert archetypes'[a].entities[r] == archetypes[a].entities[r'];
      assert ArchetypeRowIsOf(meta, a, r', archetypes[a].entities[r'].entity.index, {});
    }
  }

  lemma SwappedIntoArchetypeRow(archetypes: seq<Archetype>, meta: seq<EntityMeta>, e: nat)
    requires ArchetypeSide(archetypes, meta, {})
    requires At(meta, e).Some?
    ensures var l := At(meta, e).value;
            var swapped := ArchetypeSwapped(archetypes[l.archetypeId], l.archetypeRow);
            swapped.Some? ==> EntitiesGet(meta, swapped.value).Some? && swapped.value.index != e
  {
    var l := At(meta, e).value;
    assert archetypes[l.archetypeId].entities[l.archetypeRow].entity.index == e;
  }

  lemma PatchKeepsTableSide(tables: seq<Table>, meta: seq<EntityMeta>, swapped: Option<Entity>, row: nat)
    requires TableSide(tables, meta, {})
    requires swapped.Some? ==> At(meta, swapped.value.index).Some?
    ensures TableSide(tables, PatchArchetypeRow(meta, swapped, row), {})
  {
  }

  // ---- taking an entity out of its table -------------------------------------------------

  function TableWithoutRow(tables: seq<Table>, t: nat, row: nat): seq<Table>
    requires t < |tables| && tables[t].Wf() && row < |tables[t].entities|
  {
    tables[t := tables[t].RemoveRow(row)]
  }

  function PatchTableRow(meta: seq<EntityMeta>, swapped: Option<Entity>, row: nat): seq<EntityMeta>
    requires swapped.Some? ==> At(meta, swapped.value.index).Some?
  {
    match swapped
    case None => meta
    case Some(w) => Relocate(meta, w.index, At(meta, w.index).value.(tableRow := row))
  }

  /** `set_entity_table_row` for the entity swapped into a table row. */
  function PatchArchetypes(archetypes: seq<Archetype>, meta: seq<EntityMeta>, swapped: Option<Entity>,
                           row: nat): seq<Archetype>
    requires swapped.Some? ==>
               && At(meta, swapped.value.index).Some?
               && var l := At(meta, swapped.value.index).value;
                  l.archetypeId < |archetypes| && l.archetypeRow < |archetypes[l.archetypeId].entities|
  {
    match swapped
    case None => archetypes
    case Some(w) =>
      var l := At(meta, w.index).value;
      var a := archetypes[l.archetypeId];
      var entities := a.entities[l.archetypeRow := a.entities[l.archetypeRow].(tableRow := row)];
      archetypes[l.archetypeId := a.(entities := entities)]
  }

  /** The entity swapped into the vacated table row is live, is not `e`, and knows where it was. */
  lemma SwappedIntoTableRow(tables: seq<Table>, meta: seq<EntityMeta>, e: nat)
    requires TableSide(tables, meta, {})
    requires At(meta, e).Some?
    ensures var l := At(meta, e).value;
            var swapped := tables[l.tableId].SwappedInto(l.tableRow);
            swapped.Some? ==>
              && EntitiesGet(meta, swapped.value).Some? && swapped.value.index != e
              && EntitiesGet(meta, swapped.value).value.tableId == l.tableId
              && EntitiesGet(meta, swapped.value).value.tableRow == |tables[l.tableId].entities| - 1
  {
    var l := At(meta, e).value;
    assert tables[l.tableId].entities[l.tableRow].index == e;
  }

  lemma LeaveTable(tables: seq<Table>, meta: seq<EntityMeta>, e: nat)
    requires forall t :: 0 <= t < |tables| ==> tables[t].Wf()
    requires TableSide(tables, meta, {})
    requires At(meta, e).Some?
    requires var l := At(meta, e).value; var swapped := tables[l.tableId].SwappedInto(l.tableRow);
             swapped.Some? ==> At(meta, swapped.value.index).Some?
    ensures var l := At(meta, e).value;
            var swapped := tables[l.tableId].SwappedInto(l.tableRow);
            TableSide(TableWithoutRow(tables, l.tableId, l.tableRow), PatchTableRow(meta, swapped, l.tableRow), {e})
  {
    SwappedIntoTableRow(tables, meta, e);
    var l := At(meta, e).value;
    assert tables[l.tableId].entities[l.tableRow].index == e;
  }

  /** Patching the swapped entity's table row in its metadata and in its archetype keeps them in step. */
  lemma PatchKeepsArchetypeSide(archetypes: seq<Archetype>, meta: seq<EntityMeta>, out: set<nat>,
                                swapped: Option<Entity>, row: nat)
    requires ArchetypeSide(archetypes, meta, out)
    requires swapped.Some? ==> At(meta, swapped.value.index).Some? && swapped.value.index !in out
    ensures ArchetypeSide(PatchArchetypes(archetypes, meta, swapped, row), PatchTableRow(meta, swapped, row), out)
  {
  }

  // ---- putting an entity into an archetype and a table --------------------------------------

  function ArchetypeWithEntity(archetypes: seq<Archetype>, a: nat, e: Entity, tableRow: nat): seq<Archetype>
    requires a < |archetypes|
  {
    archetypes[a := archetypes[a].(entities := archetypes[a].entities + [ArchetypeEntity(e, tableRow)])]
  }

  lemma EnterArchetype(archetypes: seq<Archetype>, meta: seq<EntityMeta>, e: nat, a: nat, tableRow: nat)
    requires ArchetypeSide(archetypes, meta, {e})
    requires e < |meta| && a < |archetypes|
    ensures var l := EntityLocation(a, |archetypes[a].entities|, archetypes[a].tableId, tableRow);
            ArchetypeSide(
              ArchetypeWithEntity(archetypes, a, Entity(e, meta[e].generation), tableRow),
              Relocate(meta, e, l), {})
  {
  }

  /** Entering table `t` in a fresh last row. `tables'` may hold other slots, but has the same rows elsewhere. */
  lemma EnterTable(tables: seq<Table>, tables': seq<Table>, meta: seq<EntityMeta>, e: nat, l: EntityLocation)
    requires TableSide(tables, meta, {e})
    requires e < |meta| && l.tableId < |tables|
    requires l.tableRow == |tables[l.tableId].entities|
    requires |tables'| == |tables|
    requires forall t :: 0 <= t < |tables| ==>
               tables'[t].entities
               == tables[t].entities + if t == l.tableId then [Entity(e, meta[e].generation)] else []
    ensures TableSide(tables', Relocate(meta, e, l), {})
  {
  }
}
