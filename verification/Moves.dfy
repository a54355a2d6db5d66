/**
  Moving an entity between archetypes: `BundleInserter::insert` and `move_entity_from_remove` both take
  it out of its archetype row (and table row), patch whoever was swapped in, and enter it elsewhere.
  The two functions below name the resulting state; the lemmas say that the indexes still agree and
  that no component of any entity can be observed to have changed.
 */
module Moves {
  import opened Collections
  import opened Storage
  import opened Locations
  import opened Stores

  /** The entity stands in an archetype and a table row, and may be moved to archetype `b`. */
  ghost predicate Movable(s: Store, e: nat, b: nat) {
    && Coherent(s) && TablesWf(s.tables)
    && At(s.meta, e).Some?
    && b < |s.archetypes| && s.archetypes[b].tableId < |s.tables|
  }

  function EntityAt(s: Store, e: nat): Entity
    requires e < |s.meta|
  {
    Entity(e, s.meta[e].generation)
  }

  /** The state after `e` has left its archetype row; its table row and its own metadata are untouched. */
  function OutOfArchetype(s: Store, e: nat): (t: Store)
    requires Coherent(s)
    requires At(s.meta, e).Some?
    ensures ArchetypeSide(t.archetypes, t.meta, {e}) && TableSide(t.tables, t.meta, {})
    ensures At(t.meta, e) == At(s.meta, e)
  {
    var l := At(s.meta, e).value;
    LeaveArchetype(s.archetypes, s.tables, s.meta, e);
    var swapped := ArchetypeSwapped(s.archetypes[l.archetypeId], l.archetypeRow);
    s.(archetypes := ArchetypeWithoutRow(s.archetypes, l.archetypeId, l.archetypeRow),
       meta := PatchArchetypeRow(s.meta, swapped, l.archetypeRow))
  }

  /** The state after `e` has left its table row as well. */
  function OutOfTable(s: Store, e: nat): (t: Store)
    requires ArchetypeSide(s.archetypes, s.meta, {e}) && TableSide(s.tables, s.meta, {}) && TablesWf(s.tables)
    requires At(s.meta, e).Some?
    ensures ArchetypeSide(t.archetypes, t.meta, {e}) && TableSide(t.tables, t.meta, {e}) && TablesWf(t.tables)
    ensures At(t.meta, e) == At(s.meta, e)
  {
    var l := At(s.meta, e).value;
    SwappedIntoTableRow(s.tables, s.meta, e);
    LeaveTable(s.tables, s.meta, e);
    var swapped := s.tables[l.tableId].SwappedInto(l.tableRow);
    PatchKeepsArchetypeSide(s.archetypes, s.meta, {e}, swapped, l.tableRow);
    s.(archetypes := PatchArchetypes(s.archetypes, s.meta, swapped, l.tableRow),
       tables := TableWithoutRow(s.tables, l.tableId, l.tableRow),
       meta := PatchTableRow(s.meta, swapped, l.tableRow))
  }

  /** The state after `e` has been given a row in archetype `b`, for a table row it already has. */
  function IntoArchetype(s: Store, e: nat, b: nat, tableRow: nat): Store
    requires e < |s.meta| && b < |s.archetypes|
  {
    s.(archetypes := ArchetypeWithEntity(s.archetypes, b, EntityAt(s, e), tableRow),
       meta := Relocate(s.meta, e, EntityLocation(b, |s.archetypes[b].entities|, s.archetypes[b].tableId, tableRow)))
  }

  /** `NewArchetypeSameTable`: only the archetype row changes. */
  function MovedSameTable(s: Store, e: nat, b: nat): Store
    requires Movable(s, e, b)
  {
    IntoArchetype(OutOfArchetype(s, e), e, b, At(s.meta, e).value.tableRow)
  }

  /** `move_to_superset_unchecked` and its two siblings: row `row` of table `t` moves to the end of table `u`. */
  function TablesMoved(tables: seq<Table>, t: nat, row: nat, u: nat, e: Entity): seq<Table>
    requires TablesWf(tables)
    requires t < |tables| && u < |tables| && t != u && row < |tables[t].entities|
  {
    tables[t := tables[t].RemoveRow(row)]
          [u := tables[u].Allocate(e).FillRow(|tables[u].entities|, tables[t], row)]
  }

  /** `NewArchetypeNewTable`: the table row is copied into a fresh row of the new table. */
  function MovedNewTable(s: Store, e: nat, b: nat): Store
    requires Movable(s, e, b)
    requires s.archetypes[b].tableId != At(s.meta, e).value.tableId
  {
    var l := At(s.meta, e).value;
    var u := s.archetypes[b].tableId;
    var out := OutOfTable(OutOfArchetype(s, e), e);
    var moved := TablesMoved(s.tables, l.tableId, l.tableRow, u, EntityAt(s, e));
    IntoArchetype(out, e, b, |s.tables[u].entities|).(tables := moved)
  }

  // ---- the shape of a move -----------------------------------------------------------------

  /** `t` differs from `s` only in which rows hold which entities, and in what the cells hold. */
  ghost predicate SameShape(s: Store, t: Store) {
    && t.components == s.components && t.bundles == s.bundles
    && t.byComponents == s.byComponents && t.tableIds == s.tableIds
    && |t.archetypes| == |s.archetypes|
    && (forall a :: 0 <= a < |s.archetypes| ==>
          t.archetypes[a].(entities := s.archetypes[a].entities) == s.archetypes[a])
    && |t.tables| == |s.tables|
    && (forall u :: 0 <= u < |s.tables| ==> t.tables[u].columns.Keys == s.tables[u].columns.Keys)
  }

  lemma SameShapeIsTransitive(s: Store, t: Store, u: Store)
    requires SameShape(s, t) && SameShape(t, u)
    ensures SameShape(s, u)
  {
    forall a | 0 <= a < |s.archetypes|
      ensures u.archetypes[a].(entities := s.archetypes[a].entities) == s.archetypes[a]
    {
      assert t.archetypes[a].(entities := s.archetypes[a].entities) == s.archetypes[a];
      assert u.archetypes[a].(entities := t.archetypes[a].entities) == t.archetypes[a];
    }
  }

  lemma SameShapeArchetype(s: Store, t: Store, a: nat)
    requires SameShape(s, t)
    requires a < |s.archetypes|
    ensures t.archetypes[a].ComponentSet() == s.archetypes[a].ComponentSet()
    ensures TableComponents(t.archetypes[a]) == TableComponents(s.archetypes[a])
    ensures SparseComponents(t.archetypes[a]) == SparseComponents(s.archetypes[a])
    ensures t.archetypes[a].edges == s.archetypes[a].edges
    ensures t.archetypes[a].tableId == s.archetypes[a].tableId && t.archetypes[a].id == s.archetypes[a].id
    ensures t.archetypes[a].components == s.archetypes[a].components
    ensures t.archetypes[a].flags == s.archetypes[a].flags
  {
    assert t.archetypes[a].(entities := s.archetypes[a].entities) == s.archetypes[a];
  }

  lemma SameShapeKeepsArchetype(s: Store, t: Store, a: nat)
    requires SameShape(s, t)
    requires a < |s.archetypes|
    requires ArchetypeWf(s.components, s.tables, s.tableIds, s.archetypes[a])
    ensures ArchetypeWf(t.components, t.tables, t.tableIds, t.archetypes[a])
  {
    assert t.archetypes[a].(entities := s.archetypes[a].entities) == s.archetypes[a];
  }

  lemma SameShapeKeepsEdges(s: Store, t: Store, a: nat)
    requires SameShape(s, t)
    requires a < |s.archetypes|
    requires EdgesOfExact(s.archetypes, s.bundles, a, s.archetypes[a].edges)
    ensures EdgesOfExact(t.archetypes, t.bundles, a, t.archetypes[a].edges)
  {
    forall k | 0 <= k < |s.archetypes|
      ensures t.archetypes[k].ComponentSet() == s.archetypes[k].ComponentSet()
      ensures t.archetypes[k].edges == s.archetypes[k].edges
    {
      SameShapeArchetype(s, t, k);
    }
    hide SameShape, Archetype.ComponentSet;
    var edges := s.archetypes[a].edges;
    forall b | b in edges.takeBundle
      ensures b < |s.bundles| && TakeEdgeExact(t.archetypes, a, s.bundles[b], edges.takeBundle[b])
    {
      assert TakeEdgeExact(s.archetypes, a, s.bundles[b], edges.takeBundle[b]);
    }
  }

  /** Moving entities around does not touch the archetype graph. */
  lemma SameShapeKeepsGraph(s: Store, t: Store)
    requires SameShape(s, t)
    requires GraphInv(s)
    ensures GraphInv(t)
  {
    hide ArchetypeWf, EdgesOfExact, TableComponents, SparseComponents, Archetype.ComponentSet;
    forall a | 0 <= a < |s.archetypes|
      ensures ArchetypeWf(t.components, t.tables, t.tableIds, t.archetypes[a])
      ensures EdgesOfExact(t.archetypes, t.bundles, a, t.archetypes[a].edges)
      ensures TableComponents(t.archetypes[a]) == TableComponents(s.archetypes[a])
      ensures SparseComponents(t.archetypes[a]) == SparseComponents(s.archetypes[a])
      ensures t.archetypes[a].tableId == s.archetypes[a].tableId && t.archetypes[a].id == s.archetypes[a].id
      ensures t.archetypes[a].components == s.archetypes[a].components
    {
      SameShapeKeepsArchetype(s, t, a);
      SameShapeKeepsEdges(s, t, a);
      SameShapeArchetype(s, t, a);
    }
  }

  // ---- what a move keeps ---------------------------------------------------------------------

  /** The row of `e` in `t` repeats its row in `s`; columns that are new to it are uninitialised. */
  ghost predicate RowCarried(s: Store, t: Store, e: nat)
    requires At(s.meta, e).Some? && At(t.meta, e).Some?
    requires At(s.meta, e).value.tableId < |s.tables| && At(t.meta, e).value.tableId < |t.tables|
  {
    var l, m := At(s.meta, e).value, At(t.meta, e).value;
    var old_, new_ := s.tables[l.tableId], t.tables[m.tableId];
    forall c :: c in new_.columns ==>
      && m.tableRow < |new_.columns[c]|
      && (c in old_.columns ==>
            l.tableRow < |old_.columns[c]| && new_.columns[c][m.tableRow] == old_.columns[c][l.tableRow])
      && (c !in old_.columns ==> new_.columns[c][m.tableRow] == Uninit)
  }

  /** Entity `i` stands in the same archetype and table, over the same cells, as before. */
  ghost predicate StandsAsBefore(s: Store, t: Store, i: nat)
    requires i < |s.meta| && i < |t.meta| && s.meta[i].location.Some? && t.meta[i].location.Some?
  {
    var l, m := s.meta[i].location.value, t.meta[i].location.value;
    && m.archetypeId == l.archetypeId && m.tableId == l.tableId
    && l.tableId < |s.tables| && m.tableId < |t.tables|
    && (forall c :: c in s.tables[l.tableId].columns ==>
          && c in t.tables[m.tableId].columns
          && l.tableRow < |s.tables[l.tableId].columns[c]| && m.tableRow < |t.tables[m.tableId].columns[c]|
          && t.tables[m.tableId].columns[c][m.tableRow] == s.tables[l.tableId].columns[c][l.tableRow])
  }

  /** The entities other than `e` are where they were. */
  ghost predicate OthersKept(s: Store, t: Store, e: nat) {
    && |t.meta| == |s.meta|
    && (forall i :: 0 <= i < |s.meta| && i != e ==>
          && t.meta[i].generation == s.meta[i].generation
          && (t.meta[i].location.Some? <==> s.meta[i].location.Some?))
    && (forall i :: 0 <= i < |s.meta| && i != e && s.meta[i].location.Some? ==> StandsAsBefore(s, t, i))
  }

  lemma SameTableMove(s: Store, e: nat, b: nat)
    requires Movable(s, e, b)
    requires s.archetypes[b].tableId == At(s.meta, e).value.tableId
    ensures var t := MovedSameTable(s, e, b);
            && SameShape(s, t) && Coherent(t) && t.tables == s.tables && t.sparseSets == s.sparseSets
            && t.pending == s.pending
            && OthersKept(s, t, e) && t.meta[e].generation == s.meta[e].generation
            && At(t.meta, e) == Some(EntityLocation(b, |OutOfArchetype(s, e).archetypes[b].entities|,
                                                    s.archetypes[b].tableId, At(s.meta, e).value.tableRow))
            && RowCarried(s, t, e)
  {
    var l := At(s.meta, e).value;
    var mid := OutOfArchetype(s, e);
    var t := MovedSameTable(s, e, b);
    LeavingKeepsOthers(s, e);
    EnterArchetype(mid.archetypes, mid.meta, e, b, l.tableRow);
    assert InTableRow(s.tables, s.meta, e);
    assert RowCarried(s, t, e);
    assert mid.tables == s.tables && mid.sparseSets == s.sparseSets && mid.pending == s.pending;
    hide ArchetypeSide, TableSide, TablesWf, OutOfArchetype, RowCarried, OthersKept;
    SameTableRow(mid.tables, mid.meta, e, At(t.meta, e).value);
    RelocatingKeepsOthers(mid, t, e, At(t.meta, e).value);
    OthersKeptIsTransitive(s, mid, t, e);
    assert SameShape(mid, t);
    SameShapeIsTransitive(s, mid, t);
    hide SameShape;
  }

  /** Only the archetype side of the location of `e` changes. */
  lemma SameTableRow(tables: seq<Table>, meta: seq<EntityMeta>, e: nat, l: EntityLocation)
    requires TableSide(tables, meta, {}) && At(meta, e).Some?
    requires l.tableId == At(meta, e).value.tableId && l.tableRow == At(meta, e).value.tableRow
    ensures TableSide(tables, Relocate(meta, e, l), {})
  {
  }

  lemma RelocatingKeepsOthers(s: Store, t: Store, e: nat, l: EntityLocation)
    requires TableSide(s.tables, s.meta, {}) && TablesWf(s.tables) && e < |s.meta|
    requires t.tables == s.tables && t.meta == Relocate(s.meta, e, l)
    ensures OthersKept(s, t, e)
  {
    forall i | 0 <= i < |s.meta| && i != e && s.meta[i].location.Some?
      ensures t.meta[i] == s.meta[i] && StandsAsBefore(s, t, i)
    {
      assert InTableRow(s.tables, s.meta, i);
    }
  }

  lemma OthersKeptIsTransitive(s: Store, t: Store, u: Store, e: nat)
    requires OthersKept(s, t, e) && OthersKept(t, u, e)
    ensures OthersKept(s, u, e)
  {
  }

  lemma LeavingKeepsOthers(s: Store, e: nat)
    requires Coherent(s) && TablesWf(s.tables)
    requires At(s.meta, e).Some?
    ensures OthersKept(s, OutOfArchetype(s, e), e)
    ensures SameShape(s, OutOfArchetype(s, e))
  {
  }

  /** Leaving an archetype row, as far as the target of a move and the tables are concerned. */
  lemma LeavingKeepsTables(s: Store, e: nat, b: nat)
    requires Coherent(s) && At(s.meta, e).Some? && b < |s.archetypes|
    ensures var mid := OutOfArchetype(s, e);
            && mid == s.(archetypes := mid.archetypes, meta := mid.meta)
            && |mid.archetypes| == |s.archetypes| && mid.archetypes[b].tableId == s.archetypes[b].tableId
            && e < |mid.meta| && mid.meta[e] == s.meta[e]
  {
    var l := At(s.meta, e).value;
    LeaveArchetype(s.archetypes, s.tables, s.meta, e);
    hide ArchetypeSide, TableSide;
  }

  lemma LeavingTableShape(s: Store, e: nat)
    requires ArchetypeSide(s.archetypes, s.meta, {e}) && TableSide(s.tables, s.meta, {}) && TablesWf(s.tables)
    requires At(s.meta, e).Some?
    ensures SameShape(s, OutOfTable(s, e))
  {
  }

  /** Where row `r` of table `v` is after row `row` of table `u` has been taken out by a swap. */
  function RowAfter(tables: seq<Table>, u: nat, row: nat, v: nat, r: nat): nat
    requires u < |tables|
  {
    if v == u && r == |tables[u].entities| - 1 then row else r
  }

  lemma CellAfterRemoval(tables: seq<Table>, u: nat, row: nat, v: nat, r: nat, c: ComponentId)
    requires TablesWf(tables) && u < |tables| && row < |tables[u].entities|
    requires v < |tables| && r < |tables[v].entities| && !(v == u && r == row) && c in tables[v].columns
    ensures var out := TableWithoutRow(tables, u, row);
            var r' := RowAfter(tables, u, row, v, r);
            c in out[v].columns && r' < |out[v].columns[c]| && out[v].columns[c][r'] == tables[v].columns[c][r]
  {
  }

  /** One bystander: either it did not move, or it was swapped from the last row into `e`'s. */
  lemma BystanderLocation(s: Store, e: nat, i: nat)
    requires ArchetypeSide(s.archetypes, s.meta, {e}) && TableSide(s.tables, s.meta, {}) && TablesWf(s.tables)
    requires At(s.meta, e).Some? && At(s.meta, i).Some? && i != e
    ensures var l, x := At(s.meta, i).value, At(s.meta, e).value;
            && l.tableId < |s.tables| && l.tableRow < |s.tables[l.tableId].entities|
            && x.tableId < |s.tables| && x.tableRow < |s.tables[x.tableId].entities|
            && !(l.tableId == x.tableId && l.tableRow == x.tableRow)
            && At(OutOfTable(s, e).meta, i)
               == Some(l.(tableRow := RowAfter(s.tables, x.tableId, x.tableRow, l.tableId, l.tableRow)))
  {
    SwappedIntoTableRow(s.tables, s.meta, e);
    assert InTableRow(s.tables, s.meta, e) && InTableRow(s.tables, s.meta, i);
    hide ArchetypeSide, TablesWf;
  }

  lemma BystanderOfTableRemoval(s: Store, e: nat, i: nat)
    requires ArchetypeSide(s.archetypes, s.meta, {e}) && TableSide(s.tables, s.meta, {}) && TablesWf(s.tables)
    requires At(s.meta, e).Some? && At(s.meta, i).Some? && i != e
    ensures At(OutOfTable(s, e).meta, i).Some? && StandsAsBefore(s, OutOfTable(s, e), i)
  {
    var l, x := At(s.meta, i).value, At(s.meta, e).value;
    BystanderLocation(s, e, i);
    assert OutOfTable(s, e).tables == TableWithoutRow(s.tables, x.tableId, x.tableRow);
    hide ArchetypeSide, TableSide, OutOfTable, TableWithoutRow, RowAfter;
    forall c | c in s.tables[l.tableId].columns
      ensures var r := RowAfter(s.tables, x.tableId, x.tableRow, l.tableId, l.tableRow);
              var after := TableWithoutRow(s.tables, x.tableId, x.tableRow)[l.tableId];
              && c in after.columns && r < |after.columns[c]|
              && after.columns[c][r] == s.tables[l.tableId].columns[c][l.tableRow]
              && l.tableRow < |s.tables[l.tableId].columns[c]|
    {
      CellAfterRemoval(s.tables, x.tableId, x.tableRow, l.tableId, l.tableRow, c);
    }
  }

  lemma LeavingTableKeepsHandles(s: Store, e: nat)
    requires ArchetypeSide(s.archetypes, s.meta, {e}) && TableSide(s.tables, s.meta, {}) && TablesWf(s.tables)
    requires At(s.meta, e).Some?
    ensures var t := OutOfTable(s, e);
            && |t.meta| == |s.meta|
            && forall i :: 0 <= i < |s.meta| ==>
                 && t.meta[i].generation == s.meta[i].generation
                 && (t.meta[i].location.Some? <==> s.meta[i].location.Some?)
  {
    SwappedIntoTableRow(s.tables, s.meta, e);
    hide ArchetypeSide, TableSide, TablesWf;
  }

  lemma LeavingTableKeepsOthers(s: Store, e: nat)
    requires ArchetypeSide(s.archetypes, s.meta, {e}) && TableSide(s.tables, s.meta, {}) && TablesWf(s.tables)
    requires At(s.meta, e).Some?
    ensures OthersKept(s, OutOfTable(s, e), e)
  {
    LeavingTableKeepsHandles(s, e);
    hide ArchetypeSide, TableSide, TablesWf, OutOfTable, StandsAsBefore;
    forall i | 0 <= i < |s.meta| && i != e && s.meta[i].location.Some?
      ensures StandsAsBefore(s, OutOfTable(s, e), i)
    {
      BystanderOfTableRemoval(s, e, i);
    }
  }

  /** `new_archetype`'s table cannot hold the entity swapped into the old table's row. */
  lemma SwappedEntityIsNotInTarget(s: Store, e: nat, b: nat)
    requires Movable(s, e, b)
    requires s.archetypes[b].tableId != At(s.meta, e).value.tableId
    ensures var mid := OutOfArchetype(s, e);
            var l := At(s.meta, e).value;
            var swapped := s.tables[l.tableId].SwappedInto(l.tableRow);
            swapped.Some? ==>
              && EntitiesGet(mid.meta, swapped.value).Some?
              && EntitiesGet(mid.meta, swapped.value).value.archetypeId != b
  {
    var mid := OutOfArchetype(s, e);
    SwappedIntoTableRow(mid.tables, mid.meta, e);
  }

  lemma EnteringKeepsOthers(s: Store, t: Store, e: nat, l: EntityLocation)
    requires TableSide(s.tables, s.meta, {e}) && TablesWf(s.tables)
    requires e < |s.meta| && At(s.meta, e).Some?
    requires t.meta == Relocate(s.meta, e, l)
    requires |t.tables| == |s.tables|
    requires forall u :: 0 <= u < |s.tables| ==> t.tables[u].columns.Keys == s.tables[u].columns.Keys
    requires forall u, c, r :: 0 <= u < |s.tables| && c in s.tables[u].columns && 0 <= r < |s.tables[u].columns[c]| ==>
               r < |t.tables[u].columns[c]| && t.tables[u].columns[c][r] == s.tables[u].columns[c][r]
    ensures OthersKept(s, t, e)
  {
    forall i | 0 <= i < |s.meta| && i != e && s.meta[i].location.Some?
      ensures t.meta[i] == s.meta[i] && StandsAsBefore(s, t, i)
    {
      assert InTableRow(s.tables, s.meta, i);
    }
  }

  lemma NewTableMoveCoherent(s: Store, e: nat, b: nat)
    requires Movable(s, e, b)
    requires s.archetypes[b].tableId != At(s.meta, e).value.tableId
    ensures Coherent(MovedNewTable(s, e, b))
  {
    var l := At(s.meta, e).value;
    var out := OutOfTable(OutOfArchetype(s, e), e);
    var u := s.archetypes[b].tableId;
    var row := |s.tables[u].entities|;
    var t := MovedNewTable(s, e, b);
    TablesMovedRows(s.tables, l.tableId, l.tableRow, u, EntityAt(s, e));
    LeavingKeepsShape(s, e);
    hide ArchetypeSide, TableSide, TablesMoved;
    EnterArchetype(out.archetypes, out.meta, e, b, row);
    EnterTable(out.tables, t.tables, out.meta, e, At(t.meta, e).value);
  }

  /** Until `e` is entered again, `b` is an untouched archetype. */
  lemma LeavingKeepsShape(s: Store, e: nat)
    requires Coherent(s) && TablesWf(s.tables)
    requires At(s.meta, e).Some?
    ensures var out := OutOfTable(OutOfArchetype(s, e), e);
            var l := At(s.meta, e).value;
            && SameShape(s, out)
            && l.tableId < |s.tables| && l.tableRow < |s.tables[l.tableId].entities|
            && s.tables[l.tableId].entities[l.tableRow] == EntityAt(s, e)
            && out.tables == TableWithoutRow(s.tables, l.tableId, l.tableRow)
            && |out.meta| == |s.meta| && out.meta[e] == s.meta[e]
            && forall a :: 0 <= a < |s.archetypes| ==> out.archetypes[a].tableId == s.archetypes[a].tableId
  {
    var mid := OutOfArchetype(s, e);
    LeavingKeepsOthers(s, e);
    LeavingTableShape(mid, e);
    SameShapeIsTransitive(s, mid, OutOfTable(mid, e));
  }

  lemma NewTableMoveShape(s: Store, e: nat, b: nat)
    requires Movable(s, e, b)
    requires s.archetypes[b].tableId != At(s.meta, e).value.tableId
    ensures var t := MovedNewTable(s, e, b);
            var u := s.archetypes[b].tableId;
            && SameShape(s, t) && TablesWf(t.tables)
            && t.sparseSets == s.sparseSets && t.pending == s.pending
            && At(t.meta, e).Some? && At(t.meta, e).value.archetypeId == b
            && At(t.meta, e).value.tableId == u && At(t.meta, e).value.tableRow == |s.tables[u].entities|
            && t.meta[e].generation == s.meta[e].generation
            && RowCarried(s, t, e)
  {
    var l := At(s.meta, e).value;
    var out := OutOfTable(OutOfArchetype(s, e), e);
    var u := s.archetypes[b].tableId;
    var t := MovedNewTable(s, e, b);
    LeavingKeepsShape(s, e);
    TablesMovedRows(s.tables, l.tableId, l.tableRow, u, EntityAt(s, e));
    hide ArchetypeSide, TableSide, TablesMoved, TableWithoutRow, OutOfTable, OutOfArchetype;
    MoveShape(s, out, t, b, t.archetypes[b].entities);
  }

  lemma NewTableMoveKeepsOthers(s: Store, e: nat, b: nat)
    requires Movable(s, e, b)
    requires s.archetypes[b].tableId != At(s.meta, e).value.tableId
    ensures OthersKept(s, MovedNewTable(s, e, b), e)
  {
    var l := At(s.meta, e).value;
    var mid := OutOfArchetype(s, e);
    var out := OutOfTable(mid, e);
    var u := s.archetypes[b].tableId;
    var t := MovedNewTable(s, e, b);
    LeavingKeepsShape(s, e);
    LeavingKeepsOthers(s, e);
    LeavingTableKeepsOthers(mid, e);
    OthersKeptIsTransitive(s, mid, out, e);
    TablesMovedRows(s.tables, l.tableId, l.tableRow, u, EntityAt(s, e));
    hide ArchetypeSide, TableSide, SameShape, TablesMoved, OthersKept, TableWithoutRow, OutOfTable, OutOfArchetype;
    EnteringKeepsOthers(out, t, e, At(t.meta, e).value);
    OthersKeptIsTransitive(s, out, t, e);
  }

  /** The tables of a move: `t` loses a row, `u` gains one, and the cells of the row are carried over. */
  lemma TablesMovedRows(tables: seq<Table>, t: nat, row: nat, u: nat, e: Entity)
    requires TablesWf(tables)
    requires t < |tables| && u < |tables| && t != u && row < |tables[t].entities|
    ensures var moved := TablesMoved(tables, t, row, u, e);
            var out := TableWithoutRow(tables, t, row);
            var last := |tables[u].entities|;
            && |moved| == |tables| && TablesWf(moved)
            && (forall v :: 0 <= v < |tables| ==>
                  && moved[v].columns.Keys == tables[v].columns.Keys
                  && moved[v].entities == out[v].entities + if v == u then [e] else [])
            && (forall v, c, r :: 0 <= v < |out| && c in out[v].columns && 0 <= r < |out[v].columns[c]| ==>
                  r < |moved[v].columns[c]| && moved[v].columns[c][r] == out[v].columns[c][r])
            && (forall c :: c in moved[u].columns ==>
                  && |moved[u].columns[c]| == last + 1
                  && moved[u].columns[c][last]
                     == if c in tables[t].columns then tables[t].columns[c][row] else Uninit)
  {
  }

  lemma RowRemovalInitialised(tables: seq<Table>, t: nat, row: nat)
    requires TablesWf(tables) && InitialisedExcept(tables, -1, -1)
    requires t < |tables| && row < |tables[t].entities|
    ensures InitialisedExcept(TableWithoutRow(tables, t, row), -1, -1)
  {
  }

  lemma TableRemovalRows(tables: seq<Table>, t: nat, row: nat)
    requires TablesWf(tables) && t < |tables| && row < |tables[t].entities|
    ensures var out := TableWithoutRow(tables, t, row);
            && |out| == |tables| && TablesWf(out)
            && forall v :: 0 <= v < |tables| ==>
                 && out[v].columns.Keys == tables[v].columns.Keys
                 && |out[v].entities| == |tables[v].entities| - if v == t then 1 else 0
  {
  }

  /** Every cell outside the appended row was a cell before, so nothing else became uninitialised. */
  lemma TablesMovedInitialised(tables: seq<Table>, t: nat, row: nat, u: nat, e: Entity)
    requires TablesWf(tables) && InitialisedExcept(tables, -1, -1)
    requires t < |tables| && u < |tables| && t != u && row < |tables[t].entities|
    ensures InitialisedExcept(TablesMoved(tables, t, row, u, e), u, |tables[u].entities|)
  {
    var moved, out := TablesMoved(tables, t, row, u, e), TableWithoutRow(tables, t, row);
    TablesMovedRows(tables, t, row, u, e);
    RowRemovalInitialised(tables, t, row);
    TableRemovalRows(tables, t, row);
    hide TablesMoved, TableWithoutRow;
    forall v, c, r | 0 <= v < |moved| && c in moved[v].columns && 0 <= r < |moved[v].columns[c]|
                     && !(v == u && r == |tables[u].entities|)
      ensures moved[v].columns[c][r].Init?
    {
      assert |moved[v].columns[c]| == |out[v].columns[c]| + if v == u then 1 else 0;
      assert moved[v].columns[c][r] == out[v].columns[c][r];
    }
  }

  lemma NewTableMoveInitialised(s: Store, e: nat, b: nat)
    requires Movable(s, e, b)
    requires s.archetypes[b].tableId != At(s.meta, e).value.tableId
    requires InitialisedExcept(s.tables, -1, -1)
    ensures var t := MovedNewTable(s, e, b);
            InitialisedExcept(t.tables, s.archetypes[b].tableId, |s.tables[s.archetypes[b].tableId].entities|)
  {
    var l := At(s.meta, e).value;
    LeavingKeepsShape(s, e);
    hide ArchetypeSide, TableSide, SameShape, TablesWf, InitialisedExcept, TablesMoved, OutOfTable, OutOfArchetype;
    TablesMovedInitialised(s.tables, l.tableId, l.tableRow, s.archetypes[b].tableId, EntityAt(s, e));
  }

  lemma MoveShape(s: Store, out: Store, t: Store, b: nat, entities: seq<ArchetypeEntity>)
    requires SameShape(s, out)
    requires b < |out.archetypes|
    requires t.archetypes == out.archetypes[b := out.archetypes[b].(entities := entities)]
    requires |t.tables| == |out.tables|
    requires forall u :: 0 <= u < |out.tables| ==> t.tables[u].columns.Keys == out.tables[u].columns.Keys
    requires t.components == out.components && t.bundles == out.bundles
    requires t.byComponents == out.byComponents && t.tableIds == out.tableIds
    ensures SameShape(s, t)
  {
    assert SameShape(out, t);
    SameShapeIsTransitive(s, out, t);
  }

  // ---- the order in which the source works -------------------------------------------------

  /**
    `BundleInserter::insert` enters the new archetype before it patches the entity swapped into the
    old table row; `MovedNewTable` does it the other way round. The two orders agree.
   */
  lemma InsertOrderAgrees(s: Store, e: nat, b: nat)
    requires Movable(s, e, b)
    requires s.archetypes[b].tableId != At(s.meta, e).value.tableId
    ensures var mid := OutOfArchetype(s, e);
            var l := At(s.meta, e).value;
            var swapped := s.tables[l.tableId].SwappedInto(l.tableRow);
            var u := s.archetypes[b].tableId;
            var row := |s.tables[u].entities|;
            var target := EntityLocation(b, |mid.archetypes[b].entities|, u, row);
            var archetypes := ArchetypeWithEntity(mid.archetypes, b, EntityAt(s, e), row);
            var meta := Relocate(mid.meta, e, target);
            && (swapped.Some? ==>
                  && EntitiesGet(meta, swapped.value).Some?
                  && EntitiesGet(meta, swapped.value).value.archetypeId != b
                  && EntitiesGet(meta, swapped.value).value.archetypeId < |archetypes|
                  && EntitiesGet(meta, swapped.value).value.archetypeRow
                     < |archetypes[EntitiesGet(meta, swapped.value).value.archetypeId].entities|)
            && TablesWf(s.tables) && l.tableRow < |s.tables[l.tableId].entities|
            && MovedNewTable(s, e, b)
               == s.(archetypes := PatchArchetypes(archetypes, meta, swapped, l.tableRow),
                     meta := PatchTableRow(meta, swapped, l.tableRow),
                     tables := TablesMoved(s.tables, l.tableId, l.tableRow, u, EntityAt(s, e)))
            && At(MovedNewTable(s, e, b).meta, e) == Some(target)
  {
    var mid := OutOfArchetype(s, e);
    var l := At(s.meta, e).value;
    SwappedIntoTableRow(mid.tables, mid.meta, e);
    SwappedEntityIsNotInTarget(s, e, b);
    var swapped := s.tables[l.tableId].SwappedInto(l.tableRow);
    var u := s.archetypes[b].tableId;
    var row := |s.tables[u].entities|;
    if swapped.Some? {
      var w := swapped.value.index;
      var wl := At(mid.meta, w).value;
      assert mid.archetypes[wl.archetypeId].entities[wl.archetypeRow].entity.index == w;
    }
    hide ArchetypeSide, TableSide, OutOfArchetype;
    EnterThenPatch(mid.archetypes, mid.meta, e, EntityAt(s, e), b, row,
                   EntityLocation(b, |mid.archetypes[b].entities|, u, row), swapped, l.tableRow);
  }

  /** `move_entity_from_remove` patches the swapped entity first and writes the new location last. */
  lemma RemoveOrderAgrees(s: Store, e: nat, b: nat)
    requires Movable(s, e, b)
    requires s.archetypes[b].tableId != At(s.meta, e).value.tableId
    ensures var mid := OutOfArchetype(s, e);
            var l := At(s.meta, e).value;
            var swapped := s.tables[l.tableId].SwappedInto(l.tableRow);
            var u := s.archetypes[b].tableId;
            var row := |s.tables[u].entities|;
            var target := EntityLocation(b, |mid.archetypes[b].entities|, u, row);
            var archetypes := ArchetypeWithEntity(mid.archetypes, b, EntityAt(s, e), row);
            && (swapped.Some? ==>
                  && EntitiesGet(mid.meta, swapped.value).Some?
                  && EntitiesGet(mid.meta, swapped.value).value.archetypeId < |archetypes|
                  && EntitiesGet(mid.meta, swapped.value).value.archetypeRow
                     < |archetypes[EntitiesGet(mid.meta, swapped.value).value.archetypeId].entities|)
            && TablesWf(s.tables) && l.tableRow < |s.tables[l.tableId].entities|
            && MovedNewTable(s, e, b)
               == s.(archetypes := PatchArchetypes(archetypes, mid.meta, swapped, l.tableRow),
                     meta := Relocate(PatchTableRow(mid.meta, swapped, l.tableRow), e, target),
                     tables := TablesMoved(s.tables, l.tableId, l.tableRow, u, EntityAt(s, e)))
            && At(MovedNewTable(s, e, b).meta, e) == Some(target)
  {
    InsertOrderAgrees(s, e, b);
    var mid := OutOfArchetype(s, e);
    var l := At(s.meta, e).value;
    SwappedIntoTableRow(mid.tables, mid.meta, e);
    hide ArchetypeSide, TableSide, OutOfArchetype, MovedNewTable, TablesMoved, ArchetypeWithEntity;
  }

  lemma EnterThenPatch(archetypes: seq<Archetype>, meta: seq<EntityMeta>, e: nat, entity: Entity, b: nat, row: nat,
                       target: EntityLocation, swapped: Option<Entity>, vacated: nat)
    requires e < |meta| && b < |archetypes|
    requires swapped.Some? ==>
               && EntitiesGet(meta, swapped.value).Some? && swapped.value.index != e
               && var wl := EntitiesGet(meta, swapped.value).value;
                  && wl.archetypeId != b && wl.archetypeId < |archetypes|
                  && wl.archetypeRow < |archetypes[wl.archetypeId].entities|
    ensures var archetypes' := ArchetypeWithEntity(archetypes, b, entity, row);
            var meta' := Relocate(meta, e, target);
            && (swapped.Some? ==> EntitiesGet(meta', swapped.value) == EntitiesGet(meta, swapped.value))
            && (swapped.Some? ==> archetypes'[EntitiesGet(meta', swapped.value).value.archetypeId]
                                  == archetypes[EntitiesGet(meta, swapped.value).value.archetypeId])
            && PatchArchetypes(archetypes', meta', swapped, vacated)
               == ArchetypeWithEntity(PatchArchetypes(archetypes, meta, swapped, vacated), b, entity, row)
            && PatchTableRow(meta', swapped, vacated) == Relocate(PatchTableRow(meta, swapped, vacated), e, target)
            && |PatchArchetypes(archetypes, meta, swapped, vacated)[b].entities| == |archetypes[b].entities|
            && PatchArchetypes(archetypes, meta, swapped, vacated)[b].tableId == archetypes[b].tableId
  {
  }
}
