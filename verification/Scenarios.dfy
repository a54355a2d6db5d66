/**
  Concrete runs of a world that separate what the code does from what its documentation says, and one that
  takes a branch of `insert` which is easily thought dead.
 */
module Scenarios {
  import opened Collections
  import opened Storage
  import opened Locations
  import opened Stores
  import opened Graph
  import opened EdgeTargets
  import opened Effects
  import opened Writes
  import opened Inserters
  import opened Removals
  import opened Semantics
  import opened Removers
  import opened Worlds
  import opened Histories

  /** Component 0 is sparse, component 1 is stored in tables; bundle 0 lists both, bundle 1 only the second. */
  method TwoComponents() returns (w: World)
    ensures fresh(w) && w.Valid()
    ensures w.bundles == [[1, 0], [1]] && |w.archetypes| == 1 && w.archetypes[0].components == []
    ensures Abs(w.S()) == map[] && !EmptyTableSplit(w.archetypes)
    ensures |w.components| == 2 && w.components[0].storage == InSparseSet && w.components[1].storage == InTable
  {
    hide Inv, ArchetypeIds.IdsExact, Abs, EmptyTableSplit;
    w := new World();
    NewWorldIsWhole(w.S());
    var none := Flags(false, false, false);
    var sparse := w.RegisterComponent(ComponentInfo(InSparseSet, none));
    var dense := w.RegisterComponent(ComponentInfo(InTable, none));
    var both := w.RegisterBundle([dense, sparse]);
    var one := w.RegisterBundle([dense]);
  }

  /**
    Taking component 1 off an archetype with both leaves no table components in an archetype that is new: a
    second empty table appears, and two archetypes with the same (no) table components use different tables.
   */
  method SecondEmptyTable() returns (w: World)
    ensures fresh(w) && w.Valid()
    ensures EmptyTableSplit(w.archetypes) && !TablesMirrorComponents(w.S())
  {
    hide Inv, ArchetypeIds.IdsExact, Abs, Extends, EmptyTableSplit, TablesMirrorComponents, SplitsEmptyTable;
    w := TwoComponents();
    ghost var s0 := w.S();
    TwoSets(w.bundles[0], w.bundles[1]);
    assert s0.archetypes[0].ComponentSet() == {};
    var a := w.AddBundleToArchetype(0, 0);
    ghost var s1 := w.S();
    SameComponentSets(s0, s1, 0);
    hide Archetype.ComponentSet, ToSet;
    TakingTheTableComponent(s1, a);
    var b := w.RemoveBundleFromArchetype(a, 1, true);
    InvParts(w.S());
    hide GraphInv, Coherent, DataInv;
    TablesMirrorComponentsIff(w.S());
  }

  lemma TwoSets(both: seq<ComponentId>, one: seq<ComponentId>)
    requires both == [1, 0] && one == [1]
    ensures {} + ToSet(both) == {0, 1} && ToSet(one) == {1}
    ensures {0, 1} - ToSet(one) == {0}
  {
    assert both[0] == 1 && both[1] == 0 && one[0] == 1;
  }

  lemma TakingTheTableComponent(s: Store, a: nat)
    requires |s.components| == 2 && s.components[0].storage == InSparseSet && s.components[1].storage == InTable
    requires a < |s.archetypes| <= 2 && s.archetypes[a].ComponentSet() == {0, 1} && s.archetypes[0].ComponentSet() == {}
    ensures SplitsEmptyTable(s, a, {1})
  {
    hide Archetype.ComponentSet;
    assert 1 in OfStorage(s.components, {0, 1}, InTable);
    assert 0 in {0, 1} - {1} && 1 in s.archetypes[a].ComponentSet();
  }

  /** `take` of a bundle without components: the entity has every component in it, and is answered that it has not. */
  method EmptyBundleIsNotTaken() returns (w: World, e: Entity, values: Option<seq<Value>>)
    ensures fresh(w) && w.Valid() && w.bundles == [[]]
    ensures e in Abs(w.S()) && ToSet(w.bundles[0]) <= Abs(w.S())[e].Keys && values.None?
  {
    hide Inv, ArchetypeIds.IdsExact, Abs;
    w := new World();
    var none := w.RegisterBundle([]);
    e := w.SpawnBundle(0, [], 0);
    LiveEntities(w.S(), e);
    values := w.Take(e, EntitiesGet(w.meta, e).value, 0);
  }

  /** A spawn after a despawn: the index comes back at once, one generation on, and no index is made. */
  method FreedIndexComesBack(w: World, e: Entity, bundleId: nat, values: seq<Value>, tick: Tick)
    returns (next: Entity)
    requires w.Valid() && EntitiesGet(w.meta, e).Some? && bundleId < |w.bundles| && |values| == |w.bundles[bundleId]|
    modifies w
    ensures w.Valid() && |w.meta| == old(|w.meta|) && w.pending == old(w.pending)
    ensures next.index == e.index && next != e
    ensures next.generation == if e.generation == MAX_GENERATION then 1 else e.generation + 1
    ensures Abs(w.S())
            == (old(Abs(w.S())) - {e})[next := Overwrite(map[], old(w.bundles)[bundleId], values, tick)]
  {
    hide Inv, ArchetypeIds.IdsExact, Abs, Overwrite, EmptyTableSplit, NoneFreed, HandlesAdvance;
    ghost var order := w.DespawnEntity(e, EntitiesGet(w.meta, e).value);
    next := w.SpawnBundle(bundleId, values, tick);
  }

  // ---- the third branch of an insertion into a new table -------------------------------------

  /**
    Moving `e` to archetype `target` moves it to another table, and the entity swapped into its row stands in
    neither its archetype nor the target, but in another archetype over the same table.
   */
  ghost predicate SwapsOtherArchetype(s: Store, e: Entity, other: Entity, target: nat) {
    && EntitiesGet(s.meta, e).Some? && EntitiesGet(s.meta, other).Some?
    && var l, m := EntitiesGet(s.meta, e).value, EntitiesGet(s.meta, other).value;
    && l.tableId < |s.tables| && l.tableRow < |s.tables[l.tableId].entities|
    && s.tables[l.tableId].SwappedInto(l.tableRow) == Some(other)
    && target < |s.archetypes| && s.archetypes[target].tableId != l.tableId
    && m.archetypeId != l.archetypeId && m.archetypeId != target
  }

  /** The one of two entities sharing a table that stands in the first row moves. */
  method ThirdBranch() returns (w: World, e: Entity, other: Entity, ins: BundleInserter)
    ensures fresh(w) && w.Valid() && InserterFor(w.S(), ins)
    ensures EntitiesGet(w.meta, e).Some? && EntitiesGet(w.meta, e).value.archetypeId == ins.archetypeId
    ensures SwapsOtherArchetype(w.S(), e, other, ins.addBundle.archetypeId)
  {
    hide Inv, ArchetypeIds.IdsExact, Abs, EmptyTableSplit, InserterFor, SwapsOtherArchetype, Extends;
    var x, y;
    w, x, y := TwoSharers();
    ghost var s := w.S();
    var row := EntitiesGet(w.meta, x).value.tableRow;
    e, other := if row == 0 then x else y, if row == 0 then y else x;
    FirstOfTwo(s, e, other);
    ins := w.NewInserter(EntitiesGet(w.meta, e).value.archetypeId, 2, 0);
    Swaps(s, w.S(), e, other, ins);
  }

  /** Two entities with the same table component, one of them with a sparse one; bundle 2 lists another. */
  method TwoSharers() returns (w: World, x: Entity, y: Entity)
    ensures fresh(w) && w.Valid()
    ensures StandTogether(w.S(), x, y) && StandTogether(w.S(), y, x)
    ensures 2 !in Abs(w.S())[x].Keys && 2 !in Abs(w.S())[y].Keys
    ensures |w.bundles| == 3 && w.bundles[2] == [2] && |w.components| == 3 && w.components[2].storage == InTable
  {
    hide Inv, ArchetypeIds.IdsExact, Abs, EmptyTableSplit, Overwrite, NoneFreed, StandTogether, InsertTriggers;
    w := TwoComponents();
    var third := w.RegisterComponent(ComponentInfo(InTable, Flags(false, false, false)));
    var more := w.RegisterBundle([third]);
    x := w.SpawnBundle(0, [0, 0], 0);
    y := w.SpawnBundle(1, [0], 0);
    TwoSpawned(w.S(), x, y, w.bundles[0], w.bundles[1]);
  }

  /** The only two entities, in two archetypes over one table. */
  ghost predicate StandTogether(s: Store, x: Entity, y: Entity) {
    && x != y && Abs(s).Keys == {x, y}
    && EntitiesGet(s.meta, x).Some? && EntitiesGet(s.meta, y).Some?
    && EntitiesGet(s.meta, x).value.tableId == EntitiesGet(s.meta, y).value.tableId
    && EntitiesGet(s.meta, x).value.archetypeId != EntitiesGet(s.meta, y).value.archetypeId
    && EntitiesGet(s.meta, x).value.archetypeId < |s.archetypes|
    && EntitiesGet(s.meta, y).value.archetypeId < |s.archetypes|
  }

  lemma TwoSpawned(s: Store, x: Entity, y: Entity, both: seq<ComponentId>, one: seq<ComponentId>)
    requires Inv(s) && !EmptyTableSplit(s.archetypes)
    requires |s.components| == 3 && s.components[0].storage == InSparseSet && s.components[1].storage == InTable
    requires x != y && both == [1, 0] && one == [1]
    requires Abs(s) == map[x := Overwrite(map[], both, [0, 0], 0)][y := Overwrite(map[], one, [0], 0)]
    ensures StandTogether(s, x, y) && StandTogether(s, y, x)
    ensures 2 !in Abs(s)[x].Keys && 2 !in Abs(s)[y].Keys
  {
    hide Inv, EmptyTableSplit, Abs, Overwrite, StandTogether;
    TwoSets(both, one);
    OverwriteKeys(map[], both, [0, 0], 0);
    OverwriteKeys(map[], one, [0], 0);
    TwoInOneTable(s, x, y);
  }

  lemma TwoInOneTable(s: Store, x: Entity, y: Entity)
    requires Inv(s) && !EmptyTableSplit(s.archetypes)
    requires |s.components| == 3 && s.components[0].storage == InSparseSet && s.components[1].storage == InTable
    requires x != y && Abs(s).Keys == {x, y} && Abs(s)[x].Keys == {0, 1} && Abs(s)[y].Keys == {1}
    ensures StandTogether(s, x, y) && StandTogether(s, y, x)
  {
    hide Inv, EmptyTableSplit, Abs, SetsHold;
    LiveEntities(s, x);
    LiveEntities(s, y);
    EntityHas(s, x);
    EntityHas(s, y);
    EntitiesShareTables(s, x, y);
    assert OfStorage(s.components, {0, 1}, InTable) == {1} == OfStorage(s.components, {1}, InTable);
    assert 0 in {0, 1} && 0 !in {1};
  }

  /** The rows of their table are theirs. */
  lemma RowsOfTwo(s: Store, x: Entity, y: Entity)
    requires Coherent(s) && StandTogether(s, x, y)
    ensures var l, m := EntitiesGet(s.meta, x).value, EntitiesGet(s.meta, y).value;
            && l.tableId < |s.tables| && l.tableRow != m.tableRow
            && l.tableRow < |s.tables[l.tableId].entities| && m.tableRow < |s.tables[l.tableId].entities|
            && forall r :: 0 <= r < |s.tables[l.tableId].entities| ==>
                 (s.tables[l.tableId].entities[r] == x && r == l.tableRow)
                 || (s.tables[l.tableId].entities[r] == y && r == m.tableRow)
  {
    hide ArchetypeSide, Abs;
    var l, m := EntitiesGet(s.meta, x).value, EntitiesGet(s.meta, y).value;
    assert InTableRow(s.tables, s.meta, x.index) && InTableRow(s.tables, s.meta, y.index);
    forall r | 0 <= r < |s.tables[l.tableId].entities|
      ensures (s.tables[l.tableId].entities[r] == x && r == l.tableRow)
              || (s.tables[l.tableId].entities[r] == y && r == m.tableRow)
    {
      var e := s.tables[l.tableId].entities[r];
      assert TableRowIsOf(s.meta, l.tableId, r, e.index, {});
      assert InTableRow(s.tables, s.meta, e.index);
      LiveEntities(s, e);
    }
  }

  lemma FirstOfTwo(s: Store, e: Entity, other: Entity)
    requires Inv(s) && StandTogether(s, e, other)
    requires EntitiesGet(s.meta, e).value.tableRow == 0 || EntitiesGet(s.meta, other).value.tableRow != 0
    ensures var l := EntitiesGet(s.meta, e).value;
            && l.tableId < |s.tables| && l.tableRow < |s.tables[l.tableId].entities|
            && s.tables[l.tableId].SwappedInto(l.tableRow) == Some(other)
  {
    InvParts(s);
    hide Inv, GraphInv, Coherent, DataInv, Abs;
    RowsOfTwo(s, e, other);
    var l := EntitiesGet(s.meta, e).value;
    var first := s.tables[l.tableId].entities[0];
    var last := s.tables[l.tableId].entities[|s.tables[l.tableId].entities| - 1];
  }

  lemma Swaps(s: Store, u: Store, e: Entity, other: Entity, ins: BundleInserter)
    requires Inv(s) && Inv(u) && Extends(s, u) && StandTogether(s, e, other)
    requires var l := EntitiesGet(s.meta, e).value;
             && l.tableId < |s.tables| && l.tableRow < |s.tables[l.tableId].entities|
             && s.tables[l.tableId].SwappedInto(l.tableRow) == Some(other)
    requires InserterFor(u, ins) && ins.archetypeId == EntitiesGet(s.meta, e).value.archetypeId
    requires ins.bundleId == 2 && |u.bundles| == 3 && u.bundles[2] == [2]
    requires |u.components| == 3 && u.components[2].storage == InTable
    requires 2 !in Abs(s)[e].Keys && 2 !in Abs(s)[other].Keys
    ensures SwapsOtherArchetype(u, e, other, ins.addBundle.archetypeId)
  {
    hide Inv, SetsHold, Archetype.ComponentSet, Abs, InserterFor;
    var a, b := ins.archetypeId, EntitiesGet(s.meta, other).value.archetypeId;
    EntityHas(s, e);
    EntityHas(s, other);
    LocationsAgree(s, e.index);
    SameComponentSets(s, u, a);
    SameComponentSets(s, u, b);
    assert u.archetypes[a].tableId == s.archetypes[a].tableId by {
      assert u.archetypes[a].(edges := s.archetypes[a].edges) == s.archetypes[a];
    }
    assert u.meta == s.meta
           && u.tables[EntitiesGet(s.meta, e).value.tableId] == s.tables[EntitiesGet(s.meta, e).value.tableId];
    hide Extends;
    TargetGains(u, ins, 2);
  }

  /** An archetype that gains a table component is in another table. */
  lemma TargetGains(u: Store, ins: BundleInserter, c: ComponentId)
    requires Inv(u) && InserterFor(u, ins) && ins.bundleId < |u.bundles| && u.bundles[ins.bundleId] == [c]
    requires c < |u.components| && u.components[c].storage == InTable
    requires ins.archetypeId < |u.archetypes| && c !in u.archetypes[ins.archetypeId].ComponentSet()
    ensures ins.addBundle.archetypeId < |u.archetypes|
    ensures c in u.archetypes[ins.addBundle.archetypeId].ComponentSet()
    ensures u.archetypes[ins.addBundle.archetypeId].tableId != u.archetypes[ins.archetypeId].tableId
  {
    InserterEdge(u, ins);
    hide InserterFor, Archetype.ComponentSet;
    assert u.bundles[ins.bundleId][0] == c;
    assert ArchetypesWf(u) by {
      hide BundlesWf, TablesCanonical, ByComponentsExact, EdgesExact, ArchetypesWf, Coherent, DataInv;
    }
    hide Inv, ArchetypesWf;
    ColumnsOfArchetype(u, ins.archetypeId, c);
    ColumnsOfArchetype(u, ins.addBundle.archetypeId, c);
  }
}
