/**
  Writing the components of a bundle into the rows of one entity (`BundleInfo::write_components`).
  `Column::initialize` may only be used on an uninitialised slot and `Column::replace` only on an
  initialised one: the first would leak the old value, the second would drop garbage.
 */
module Writes {
  import opened Collections
  import opened Storage
  import opened Locations
  import opened Stores

  /** What writing value `v` at `tick` makes of a component that was `old_`. */
  function NewCell(old_: Option<Cell>, v: Value, tick: Tick): Cell {
    match old_
    case None => Cell(v, tick, tick)
    case Some(cell) => Cell(v, cell.added, tick)
  }

  function WithCell(m: Components, c: ComponentId, cell: Cell): Components {
    m[c := cell]
  }

  function Find(m: Components, c: ComponentId): Option<Cell> {
    if c in m then Some(m[c]) else None
  }

  /** Inserting a bundle into a component map, one component after the other. */
  function Overwrite(m: Components, bundle: seq<ComponentId>, values: seq<Value>, tick: Tick): Components
    requires |bundle| == |values|
  {
    if bundle == [] then m
    else
      var n := |bundle| - 1;
      var before := Overwrite(m, bundle[..n], values[..n], tick);
      WithCell(before, bundle[n], NewCell(Find(before, bundle[n]), values[n], tick))
  }

  /** Without repetitions in the bundle, each of its components is written once over the original map. */
  lemma {:induction false} OverwriteFinds(m: Components, bundle: seq<ComponentId>, values: seq<Value>, tick: Tick)
    requires |bundle| == |values| && NoDuplicates(bundle)
    ensures forall k :: 0 <= k < |bundle| ==>
              Find(Overwrite(m, bundle, values, tick), bundle[k]) == Some(NewCell(Find(m, bundle[k]), values[k], tick))
    ensures forall c :: c !in bundle ==> Find(Overwrite(m, bundle, values, tick), c) == Find(m, c)
  {
    if bundle != [] {
      var n := |bundle| - 1;
      OverwriteFinds(m, bundle[..n], values[..n], tick);
      assert bundle[n] !in bundle[..n];
      forall k | 0 <= k < n
        ensures Find(Overwrite(m, bundle, values, tick), bundle[k])
                == Some(NewCell(Find(m, bundle[k]), values[k], tick))
      {
        assert bundle[..n][k] == bundle[k] && values[..n][k] == values[k];
      }
    }
  }

  // ---- the effect on tables and sparse sets -----------------------------------------------

  function SlotOption(slot: Slot): Option<Cell> {
    match slot
    case Uninit => None
    case Init(cell) => Some(cell)
  }

  /** Where the cells of one entity are: a table row, and an index in the sparse sets. */
  datatype Place = Place(entity: Entity, tableId: nat, tableRow: nat)

  ghost predicate PlaceOk(tables: seq<Table>, sets: map<ComponentId, SparseSet>, p: Place) {
    && TablesWf(tables)
    && p.tableId < |tables| && p.tableRow < |tables[p.tableId].entities|
    && (forall c :: c in sets ==> sets[c].Wf())
    && (forall c :: c in sets && p.entity.index in sets[c].sparse ==> sets[c].Owner(p.entity.index) == Some(p.entity))
  }

  lemma PlaceInTables(tables: seq<Table>, sets: map<ComponentId, SparseSet>, p: Place)
    requires PlaceOk(tables, sets, p)
    ensures TablesWf(tables) && p.tableId < |tables| && p.tableRow < |tables[p.tableId].entities|
  {
  }

  /** Every component of the bundle has a column in the table or a sparse set, as it was registered. */
  ghost predicate BundleStored(infos: seq<ComponentInfo>, table: Table, sets: map<ComponentId, SparseSet>,
                               bundle: seq<ComponentId>)
  {
    forall k :: 0 <= k < |bundle| ==>
      && bundle[k] < |infos|
      && (infos[bundle[k]].storage == InTable ==> bundle[k] in table.columns)
      && (infos[bundle[k]].storage == InSparseSet ==> bundle[k] in sets)
  }

  /** Only the row of `p` differs, and there exactly the first `n` components of the bundle were written. */
  ghost predicate TableWritten(infos: seq<ComponentInfo>, tables: seq<Table>, tables': seq<Table>, p: Place,
                               bundle: seq<ComponentId>, values: seq<Value>, tick: Tick, n: nat)
    requires |bundle| == |values| && n <= |bundle|
    requires TablesWf(tables) && p.tableId < |tables| && p.tableRow < |tables[p.tableId].entities|
    requires forall k :: 0 <= k < |bundle| ==> bundle[k] < |infos|
  {
    && |tables'| == |tables| && TablesWf(tables')
    && (forall t :: 0 <= t < |tables| ==>
          tables'[t].entities == tables[t].entities && tables'[t].columns.Keys == tables[t].columns.Keys)
    && (forall t, c, r :: 0 <= t < |tables| && c in tables[t].columns && 0 <= r < |tables[t].columns[c]|
                          && !(t == p.tableId && r == p.tableRow) ==>
          tables'[t].columns[c][r] == tables[t].columns[c][r])
    && (forall c :: c in tables[p.tableId].columns && c !in bundle[..n] ==>
          tables'[p.tableId].columns[c][p.tableRow] == tables[p.tableId].columns[c][p.tableRow])
    && (forall k :: 0 <= k < n && infos[bundle[k]].storage == InTable && bundle[k] in tables[p.tableId].columns ==>
          tables'[p.tableId].columns[bundle[k]][p.tableRow]
          == Init(NewCell(SlotOption(tables[p.tableId].columns[bundle[k]][p.tableRow]), values[k], tick)))
  }

  /** The two sets agree on every entity index but `e`. */
  ghost predicate SameElsewhere(before: SparseSet, after: SparseSet, e: nat) {
    forall i: nat :: i != e ==>
      && after.Get(i) == before.Get(i) && after.Owner(i) == before.Owner(i)
      && (i in after.sparse <==> i in before.sparse)
  }

  ghost predicate SetsWritten(infos: seq<ComponentInfo>, sets: map<ComponentId, SparseSet>,
                              sets': map<ComponentId, SparseSet>, e: Entity, bundle: seq<ComponentId>,
                              values: seq<Value>, tick: Tick, n: nat)
    requires |bundle| == |values| && n <= |bundle|
    requires forall k :: 0 <= k < |bundle| ==> bundle[k] < |infos|
  {
    && sets'.Keys == sets.Keys
    && (forall c :: c in sets ==> sets'[c].Wf())
    && (forall c :: c in sets ==> SameElsewhere(sets[c], sets'[c], e.index))
    && (forall c :: c in sets && c !in bundle[..n] ==> sets'[c] == sets[c])
    && (forall k :: 0 <= k < n && infos[bundle[k]].storage == InSparseSet && bundle[k] in sets ==>
          && sets'[bundle[k]].Get(e.index) == Some(NewCell(sets[bundle[k]].Get(e.index), values[k], tick))
          && sets'[bundle[k]].Owner(e.index) == Some(e) && e.index in sets'[bundle[k]].sparse)
  }

  /** `Column::initialize`. */
  function Initialize(tables: seq<Table>, p: Place, c: ComponentId, v: Value, tick: Tick): seq<Table>
    requires TablesWf(tables) && p.tableId < |tables| && p.tableRow < |tables[p.tableId].entities|
    requires c in tables[p.tableId].columns
    requires tables[p.tableId].columns[c][p.tableRow].Uninit?
  {
    tables[p.tableId := tables[p.tableId].Set(c, p.tableRow, Init(Cell(v, tick, tick)))]
  }

  /** `Column::replace`. */
  function Replace(tables: seq<Table>, p: Place, c: ComponentId, v: Value, tick: Tick): seq<Table>
    requires TablesWf(tables) && p.tableId < |tables| && p.tableRow < |tables[p.tableId].entities|
    requires c in tables[p.tableId].columns
    requires tables[p.tableId].columns[c][p.tableRow].Init?
  {
    var cell := tables[p.tableId].columns[c][p.tableRow].cell;
    tables[p.tableId := tables[p.tableId].Set(c, p.tableRow, Init(Cell(v, cell.added, tick)))]
  }

  lemma TableWriteStep(infos: seq<ComponentInfo>, tables: seq<Table>, tables': seq<Table>, p: Place,
                       bundle: seq<ComponentId>, values: seq<Value>, tick: Tick, n: nat)
    requires |bundle| == |values| && n < |bundle| && NoDuplicates(bundle)
    requires TablesWf(tables) && p.tableId < |tables| && p.tableRow < |tables[p.tableId].entities|
    requires forall k :: 0 <= k < |bundle| ==> bundle[k] < |infos|
    requires TableWritten(infos, tables, tables', p, bundle, values, tick, n)
    requires infos[bundle[n]].storage == InTable && bundle[n] in tables[p.tableId].columns
    ensures TablesWf(tables') && p.tableId < |tables'| && p.tableRow < |tables'[p.tableId].entities|
    ensures bundle[n] in tables'[p.tableId].columns
    ensures tables'[p.tableId].columns[bundle[n]][p.tableRow] == tables[p.tableId].columns[bundle[n]][p.tableRow]
    ensures var cell := NewCell(SlotOption(tables[p.tableId].columns[bundle[n]][p.tableRow]), values[n], tick);
            TableWritten(infos, tables, tables'[p.tableId := tables'[p.tableId].Set(bundle[n], p.tableRow, Init(cell))],
                         p, bundle, values, tick, n + 1)
  {
    var c := bundle[n];
    NotBefore(bundle, n);
    hide NoDuplicates;
    var cell := Init(NewCell(SlotOption(tables[p.tableId].columns[c][p.tableRow]), values[n], tick));
    var after := tables'[p.tableId].Set(c, p.tableRow, cell);
    SetTouchesOneSlot(tables'[p.tableId], c, p.tableRow, cell);
    hide NewCell, SlotOption, Table.Set;
    var tables'' := tables'[p.tableId := after];
    forall t, d, r | 0 <= t < |tables| && d in tables[t].columns && 0 <= r < |tables[t].columns[d]|
                     && !(t == p.tableId && r == p.tableRow)
      ensures tables''[t].columns[d][r] == tables[t].columns[d][r]
    {
      assert tables'[t].columns[d][r] == tables[t].columns[d][r];
    }
    forall k | 0 <= k < n && infos[bundle[k]].storage == InTable && bundle[k] in tables[p.tableId].columns
      ensures tables''[p.tableId].columns[bundle[k]][p.tableRow] == tables'[p.tableId].columns[bundle[k]][p.tableRow]
    {
    }
  }

  lemma NotBefore(bundle: seq<ComponentId>, n: nat)
    requires NoDuplicates(bundle) && n < |bundle|
    ensures bundle[..n + 1] == bundle[..n] + [bundle[n]]
    ensures bundle[n] !in bundle[..n]
    ensures forall k :: 0 <= k < n ==> bundle[k] != bundle[n]
  {
  }

  lemma SetTouchesOneSlot(table: Table, c: ComponentId, row: nat, slot: Slot)
    requires table.Wf() && c in table.columns && row < |table.entities|
    ensures var after := table.Set(c, row, slot);
            && after.Wf() && after.entities == table.entities && after.columns.Keys == table.columns.Keys
            && after.columns[c][row] == slot
            && forall d, r :: d in table.columns && 0 <= r < |table.entities| && !(d == c && r == row) ==>
                 after.columns[d][r] == table.columns[d][r]
  {
  }

  lemma NothingWritten(infos: seq<ComponentInfo>, tables: seq<Table>, sets: map<ComponentId, SparseSet>, p: Place,
                       bundle: seq<ComponentId>, values: seq<Value>, tick: Tick)
    requires |bundle| == |values| && PlaceOk(tables, sets, p)
    requires forall k :: 0 <= k < |bundle| ==> bundle[k] < |infos|
    ensures TableWritten(infos, tables, tables, p, bundle, values, tick, 0)
    ensures SetsWritten(infos, sets, sets, p.entity, bundle, values, tick, 0)
  {
  }

  lemma TableSkipStep(infos: seq<ComponentInfo>, tables: seq<Table>, tables': seq<Table>, p: Place,
                      bundle: seq<ComponentId>, values: seq<Value>, tick: Tick, n: nat)
    requires |bundle| == |values| && n < |bundle|
    requires TablesWf(tables) && p.tableId < |tables| && p.tableRow < |tables[p.tableId].entities|
    requires forall k :: 0 <= k < |bundle| ==> bundle[k] < |infos|
    requires TableWritten(infos, tables, tables', p, bundle, values, tick, n)
    requires infos[bundle[n]].storage == InSparseSet
    ensures TableWritten(infos, tables, tables', p, bundle, values, tick, n + 1)
  {
    assert bundle[..n + 1] == bundle[..n] + [bundle[n]];
  }

  lemma SetWriteStep(infos: seq<ComponentInfo>, sets: map<ComponentId, SparseSet>, sets': map<ComponentId, SparseSet>,
                     e: Entity, bundle: seq<ComponentId>, values: seq<Value>, tick: Tick, n: nat)
    requires |bundle| == |values| && n < |bundle| && NoDuplicates(bundle)
    requires forall k :: 0 <= k < |bundle| ==> bundle[k] < |infos|
    requires SetsWritten(infos, sets, sets', e, bundle, values, tick, n)
    requires infos[bundle[n]].storage == InSparseSet && bundle[n] in sets && sets[bundle[n]].Wf()
    requires e.index in sets[bundle[n]].sparse ==> sets[bundle[n]].Owner(e.index) == Some(e)
    ensures bundle[n] in sets' && sets'[bundle[n]] == sets[bundle[n]]
    ensures SetsWritten(infos, sets, sets'[bundle[n] := sets'[bundle[n]].Insert(e, values[n], tick)],
                        e, bundle, values, tick, n + 1)
  {
    NotBefore(bundle, n);
    hide NoDuplicates, SameElsewhere, NewCell;
    InsertTouchesOneIndex(sets[bundle[n]], e, values[n], tick);
    hide SparseSet.Insert, SparseSet.Get, SparseSet.Owner, SparseSet.Wf;
  }

  lemma InsertTouchesOneIndex(before: SparseSet, e: Entity, v: Value, tick: Tick)
    requires before.Wf()
    requires e.index in before.sparse ==> before.Owner(e.index) == Some(e)
    ensures var after := before.Insert(e, v, tick);
            && SameElsewhere(before, after, e.index)
            && after.Get(e.index) == Some(NewCell(before.Get(e.index), v, tick))
            && e.index in after.sparse
  {
    var after := before.Insert(e, v, tick);
    hide SparseSet.Insert;
    assert after.sparse.Keys == before.sparse.Keys + {e.index};
    hide SparseSet.Get, SparseSet.Owner, SparseSet.Wf;
  }

  lemma SetSkipStep(infos: seq<ComponentInfo>, sets: map<ComponentId, SparseSet>, sets': map<ComponentId, SparseSet>,
                    e: Entity, bundle: seq<ComponentId>, values: seq<Value>, tick: Tick, n: nat)
    requires |bundle| == |values| && n < |bundle|
    requires forall k :: 0 <= k < |bundle| ==> bundle[k] < |infos|
    requires SetsWritten(infos, sets, sets', e, bundle, values, tick, n)
    requires infos[bundle[n]].storage == InTable
    ensures SetsWritten(infos, sets, sets', e, bundle, values, tick, n + 1)
  {
    assert bundle[..n + 1] == bundle[..n] + [bundle[n]];
  }

  // ---- from cells to component maps -----------------------------------------------------------

  /** `u` is `t` after the whole bundle has been written at `p`. */
  ghost predicate Written(t: Store, u: Store, p: Place, bundle: seq<ComponentId>, values: seq<Value>, tick: Tick) {
    && |bundle| == |values| && NoDuplicates(bundle)
    && u == t.(tables := u.tables, sparseSets := u.sparseSets)
    && TablesWf(t.tables) && p.tableId < |t.tables| && p.tableRow < |t.tables[p.tableId].entities|
    && BundleStored(t.components, t.tables[p.tableId], t.sparseSets, bundle)
    && TableWritten(t.components, t.tables, u.tables, p, bundle, values, tick, |bundle|)
    && SetsWritten(t.components, t.sparseSets, u.sparseSets, p.entity, bundle, values, tick, |bundle|)
  }

  lemma WrittenKeepsMeta(t: Store, u: Store, p: Place, bundle: seq<ComponentId>, values: seq<Value>, tick: Tick)
    requires Written(t, u, p, bundle, values, tick)
    ensures u.meta == t.meta && u.components == t.components
    ensures |bundle| == |values| && NoDuplicates(bundle)
  {
    hide BundleStored, TableWritten, SetsWritten;
  }

  lemma WrittenLookups(t: Store, u: Store, p: Place, bundle: seq<ComponentId>, values: seq<Value>, tick: Tick)
    requires Written(t, u, p, bundle, values, tick)
    requires EntitiesGet(t.meta, p.entity).Some?
    requires EntitiesGet(t.meta, p.entity).value.tableId == p.tableId
             && EntitiesGet(t.meta, p.entity).value.tableRow == p.tableRow
    requires TableSide(t.tables, t.meta, {})
    ensures forall x, c :: x != p.entity ==> Lookup(u, x, c) == Lookup(t, x, c)
    ensures forall c :: c !in bundle ==> Lookup(u, p.entity, c) == Lookup(t, p.entity, c)
    ensures forall k :: 0 <= k < |bundle| ==>
              Lookup(u, p.entity, bundle[k]) == Some(NewCell(Lookup(t, p.entity, bundle[k]), values[k], tick))
  {
    assert |bundle| == |values|;
    hide Written, Lookup, NewCell, EntitiesGet, TableSide;
    forall x: Entity, c: ComponentId | x != p.entity
      ensures Lookup(u, x, c) == Lookup(t, x, c)
    {
      OtherLookup(t, u, p, bundle, values, tick, x, c);
    }
    forall c | c !in bundle
      ensures Lookup(u, p.entity, c) == Lookup(t, p.entity, c)
    {
      SkippedLookup(t, u, p, bundle, values, tick, c);
    }
    forall k: nat | k < |bundle|
      ensures Lookup(u, p.entity, bundle[k]) == Some(NewCell(Lookup(t, p.entity, bundle[k]), values[k], tick))
    {
      WrittenLookup(t, u, p, bundle, values, tick, k);
    }
  }

  /** Nothing is written outside row `p`, nor into the sparse sets at any other entity. */
  lemma WrittenElsewhere(t: Store, u: Store, p: Place, bundle: seq<ComponentId>, values: seq<Value>, tick: Tick,
                         c: ComponentId)
    requires Written(t, u, p, bundle, values, tick)
    ensures u.meta == t.meta && u.components == t.components && |u.tables| == |t.tables|
    ensures forall v :: 0 <= v < |t.tables| ==>
              && (c in u.tables[v].columns <==> c in t.tables[v].columns)
              && (c in t.tables[v].columns ==> |u.tables[v].columns[c]| == |t.tables[v].columns[c]|)
    ensures forall v, r :: 0 <= v < |t.tables| && c in t.tables[v].columns && 0 <= r < |t.tables[v].columns[c]|
                           && !(v == p.tableId && r == p.tableRow) ==>
              u.tables[v].columns[c][r] == t.tables[v].columns[c][r]
    ensures c in u.sparseSets <==> c in t.sparseSets
    ensures c in t.sparseSets ==> forall i: nat :: i != p.entity.index ==>
              u.sparseSets[c].Get(i) == t.sparseSets[c].Get(i)
  {
    hide NewCell, NoDuplicates, BundleStored, SparseSet.Get, SparseSet.Owner, SparseSet.Wf;
  }

  /** In row `p`, the slots of the bundle are initialised and the others are as before. */
  lemma WrittenRow(t: Store, u: Store, p: Place, bundle: seq<ComponentId>, values: seq<Value>, tick: Tick,
                   c: ComponentId)
    requires Written(t, u, p, bundle, values, tick)
    requires c < |t.components| && t.components[c].storage == InTable && c in t.tables[p.tableId].columns
    ensures p.tableId < |u.tables| && c in u.tables[p.tableId].columns && p.tableRow < |u.tables[p.tableId].columns[c]|
    ensures p.tableRow < |t.tables[p.tableId].columns[c]|
    ensures var slot := u.tables[p.tableId].columns[c][p.tableRow];
            if c in bundle then slot.Init? else slot == t.tables[p.tableId].columns[c][p.tableRow]
  {
    hide NewCell, NoDuplicates, BundleStored, SetsWritten;
    assert bundle[..|bundle|] == bundle;
    if c in bundle {
      var k :| 0 <= k < |bundle| && bundle[k] == c;
    }
  }

  lemma OtherLookup(t: Store, u: Store, p: Place, bundle: seq<ComponentId>, values: seq<Value>, tick: Tick, x: Entity,
                    c: ComponentId)
    requires Written(t, u, p, bundle, values, tick)
    requires EntitiesGet(t.meta, p.entity).Some?
    requires TableSide(t.tables, t.meta, {})
    requires EntitiesGet(t.meta, p.entity).value.tableId == p.tableId
             && EntitiesGet(t.meta, p.entity).value.tableRow == p.tableRow
    requires x != p.entity
    ensures Lookup(u, x, c) == Lookup(t, x, c)
  {
    WrittenElsewhere(t, u, p, bundle, values, tick, c);
    hide Written, SparseSet.Get;
    if EntitiesGet(t.meta, x).Some? {
      var l := EntitiesGet(t.meta, x).value;
      assert InTableRow(t.tables, t.meta, x.index);
      assert InTableRow(t.tables, t.meta, p.entity.index);
      hide TableSide;
      assert !(l.tableId == p.tableId && l.tableRow == p.tableRow);
      assert x.index != p.entity.index;
    }
  }

  lemma SkippedLookup(t: Store, u: Store, p: Place, bundle: seq<ComponentId>, values: seq<Value>, tick: Tick,
                      c: ComponentId)
    requires Written(t, u, p, bundle, values, tick)
    requires EntitiesGet(t.meta, p.entity).Some?
    requires EntitiesGet(t.meta, p.entity).value.tableId == p.tableId
             && EntitiesGet(t.meta, p.entity).value.tableRow == p.tableRow
    requires c !in bundle
    ensures Lookup(u, p.entity, c) == Lookup(t, p.entity, c)
  {
    hide NewCell, NoDuplicates, BundleStored;
    assert bundle[..|bundle|] == bundle;
  }

  lemma WrittenLookup(t: Store, u: Store, p: Place, bundle: seq<ComponentId>, values: seq<Value>, tick: Tick, k: nat)
    requires Written(t, u, p, bundle, values, tick)
    requires EntitiesGet(t.meta, p.entity).Some?
    requires EntitiesGet(t.meta, p.entity).value.tableId == p.tableId
             && EntitiesGet(t.meta, p.entity).value.tableRow == p.tableRow
    requires k < |bundle|
    ensures Lookup(u, p.entity, bundle[k]) == Some(NewCell(Lookup(t, p.entity, bundle[k]), values[k], tick))
  {
    hide NewCell, NoDuplicates;
  }

  lemma WrittenAbs(t: Store, u: Store, p: Place, bundle: seq<ComponentId>, values: seq<Value>, tick: Tick)
    requires Written(t, u, p, bundle, values, tick)
    requires EntitiesGet(t.meta, p.entity).Some?
    requires EntitiesGet(t.meta, p.entity).value.tableId == p.tableId
             && EntitiesGet(t.meta, p.entity).value.tableRow == p.tableRow
    requires TableSide(t.tables, t.meta, {})
    ensures Abs(u) == Abs(t)[p.entity := Overwrite(ComponentsOf(t, p.entity), bundle, values, tick)]
  {
    WrittenKeepsMeta(t, u, p, bundle, values, tick);
    assert p.entity in Alive(t.meta);
    hide Written, Lookup, NewCell, EntitiesGet, TableSide, NoDuplicates, Overwrite, Alive, ComponentsOf, Abs;
    WrittenLookups(t, u, p, bundle, values, tick);
    LookupsOverwrite(t, u, p.entity, bundle, values, tick);
    forall x | x in Alive(t.meta) && x != p.entity
      ensures ComponentsOf(u, x) == ComponentsOf(t, x)
    {
      SameLookups(t, u, x);
    }
    OneEntityChanges(t, u, p.entity);
  }

  lemma OneEntityChanges(t: Store, u: Store, e: Entity)
    requires u.meta == t.meta && e in Alive(t.meta)
    requires forall x :: x in Alive(t.meta) && x != e ==> ComponentsOf(u, x) == ComponentsOf(t, x)
    ensures Abs(u) == Abs(t)[e := ComponentsOf(u, e)]
  {
    hide Alive, ComponentsOf;
  }

  lemma SameLookups(t: Store, u: Store, e: Entity)
    requires |u.components| == |t.components| && forall c :: Lookup(u, e, c) == Lookup(t, e, c)
    ensures ComponentsOf(u, e) == ComponentsOf(t, e)
  {
    hide Lookup;
  }

  lemma LookupsOverwrite(t: Store, u: Store, e: Entity, bundle: seq<ComponentId>, values: seq<Value>, tick: Tick)
    requires |bundle| == |values| && NoDuplicates(bundle)
    requires forall c :: c !in bundle ==> Lookup(u, e, c) == Lookup(t, e, c)
    requires forall k :: 0 <= k < |bundle| ==>
               Lookup(u, e, bundle[k]) == Some(NewCell(Lookup(t, e, bundle[k]), values[k], tick))
    ensures ComponentsOf(u, e) == Overwrite(ComponentsOf(t, e), bundle, values, tick)
  {
    var m := ComponentsOf(t, e);
    OverwriteFinds(m, bundle, values, tick);
    hide NoDuplicates, Overwrite, NewCell, Lookup;
    var m' := Overwrite(m, bundle, values, tick);
    forall c: nat
      ensures Find(ComponentsOf(u, e), c) == Find(m', c)
    {
      FindLookup(t, e, c);
      FindLookup(u, e, c);
      hide ComponentsOf, Find;
      if c in bundle {
        var k :| 0 <= k < |bundle| && bundle[k] == c;
      }
    }
    SameFinds(ComponentsOf(u, e), m');
  }

  lemma FindLookup(s: Store, e: Entity, c: ComponentId)
    ensures Find(ComponentsOf(s, e), c) == Lookup(s, e, c)
  {
  }

  lemma SameFinds(m: Components, n: Components)
    requires forall c: nat :: Find(m, c) == Find(n, c)
    ensures m == n
  {
    forall c: nat
      ensures c in m <==> c in n
      ensures c in m ==> m[c] == n[c]
    {
      assert Find(m, c) == Find(n, c);
    }
  }
}
