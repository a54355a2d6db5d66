/**
  Component storage: the column tables of `storage/table.rs` and the per-component sparse sets of
  `storage/sparse_set.rs`. A table keeps one column per component and one row per entity; a column
  slot is `Uninit` between `Table::allocate` and the write that must follow it.
 */
module Storage {
  import opened Collections

  type ComponentId = nat
  type Value = int
  type Tick = nat

  datatype Entity = Entity(index: nat, generation: nat)

  datatype StorageType = InTable | InSparseSet

  /** A component value with the ticks at which it was added and last changed. */
  datatype Cell = Cell(value: Value, added: Tick, changed: Tick)

  datatype Slot = Uninit | Init(cell: Cell)

  datatype Table = Table(columns: map<ComponentId, seq<Slot>>, entities: seq<Entity>) {

    ghost predicate Wf() {
      forall c :: c in columns ==> |columns[c]| == |entities|
    }

    static function Empty(ids: set<ComponentId>): (t: Table)
      ensures t.Wf() && t.columns.Keys == ids && t.entities == []
    {
      Table(map c | c in ids :: [], [])
    }

    /** `allocate`: a new last row whose slots are all uninitialised. */
    function Allocate(e: Entity): (t: Table)
      requires Wf()
      ensures t.Wf() && t.columns.Keys == columns.Keys
    {
      Table(map c | c in columns :: columns[c] + [Uninit], entities + [e])
    }

    /** `swap_remove_unchecked` on every column and on the entity list. */
    function RemoveRow(row: nat): (t: Table)
      requires Wf() && row < |entities|
      ensures t.Wf() && t.columns.Keys == columns.Keys
    {
      Table(map c | c in columns :: SwapRemove(columns[c], row), SwapRemove(entities, row))
    }

    /** The entity that `swap_remove` moved into `row`, if `row` was not the last one. */
    function SwappedInto(row: nat): Option<Entity>
      requires row < |entities|
    {
      if row == |entities| - 1 then None else Some(entities[|entities| - 1])
    }

    function Set(c: ComponentId, row: nat, slot: Slot): (t: Table)
      requires Wf() && c in columns && row < |entities|
      ensures t.Wf() && t.columns.Keys == columns.Keys
    {
      Table(columns[c := columns[c][row := slot]], entities)
    }

    /** `initialize_from_unchecked` for every column of `from` that this table has as well. */
    function FillRow(row: nat, from: Table, fromRow: nat): (t: Table)
      requires Wf() && row < |entities|
      requires from.Wf() && fromRow < |from.entities|
      ensures t.Wf() && t.columns.Keys == columns.Keys
    {
      Table(
        map c | c in columns ::
          if c in from.columns then columns[c][row := from.columns[c][fromRow]] else columns[c],
        entities)
    }
  }

  /**
    `ComponentSparseSet`: dense values, the entity of each dense value, and the sparse index from
    entity index to dense position.
   */
  datatype SparseSet = SparseSet(dense: seq<Cell>, entities: seq<Entity>, sparse: map<nat, nat>) {

    ghost predicate Wf() {
      && |dense| == |entities|
      && (forall i :: i in sparse ==> sparse[i] < |entities| && entities[sparse[i]].index == i)
      && (forall k :: 0 <= k < |entities| ==> entities[k].index in sparse && sparse[entities[k].index] == k)
    }

    function Get(index: nat): (r: Option<Cell>)
    {
      if index in sparse && sparse[index] < |dense| then Some(dense[sparse[index]]) else None
    }

    /** The entity recorded for `index`; debug builds assert that it is the one asked for. */
    function Owner(index: nat): (r: Option<Entity>)
    {
      if index in sparse && sparse[index] < |entities| then Some(entities[sparse[index]]) else None
    }

    /** `insert`: replace keeps the added tick, push sets both ticks. */
    function Insert(e: Entity, v: Value, tick: Tick): (s: SparseSet)
      requires Wf()
      requires e.index in sparse ==> Owner(e.index) == Some(e)
      ensures s.Wf()
      ensures s.Get(e.index) == Some(Cell(v, if Get(e.index).Some? then Get(e.index).value.added else tick, tick))
      ensures s.Owner(e.index) == Some(e)
      ensures s.sparse.Keys == sparse.Keys + {e.index}
      ensures forall i :: i != e.index ==> s.Get(i) == Get(i) && s.Owner(i) == Owner(i)
    {
      if e.index in sparse then
        var k := sparse[e.index];
        SparseSet(dense[k := Cell(v, dense[k].added, tick)], entities, sparse)
      else
        SparseSet(dense + [Cell(v, tick, tick)], entities + [e], sparse[e.index := |dense|])
    }

    /** `remove`: swap-remove the dense value and re-point the sparse entry of the one moved in. */
    function Remove(e: Entity): (s: SparseSet)
      requires Wf()
      requires e.index in sparse ==> Owner(e.index) == Some(e)
      ensures s.Wf()
      ensures s.Get(e.index).None? && s.Owner(e.index).None?
      ensures s.sparse.Keys == sparse.Keys - {e.index}
      ensures forall i :: i != e.index ==> s.Get(i) == Get(i) && s.Owner(i) == Owner(i)
    {
      if e.index in sparse then
        WithoutPositionFinds(this, sparse[e.index]);
        WithoutPosition(sparse[e.index])
      else
        this
    }

    function WithoutPosition(k: nat): (s: SparseSet)
      requires Wf() && k < |entities|
      ensures s.Wf() && s.sparse.Keys == sparse.Keys - {entities[k].index}
    {
      var rest := sparse - {entities[k].index};
      var entities' := SwapRemove(entities, k);
      SparseSet(
        SwapRemove(dense, k),
        entities',
        if k == |dense| - 1 then rest else rest[entities'[k].index := k])
    }
  }

  lemma WithoutPositionFinds(s: SparseSet, k: nat)
    requires s.Wf() && k < |s.entities|
    ensures var after := s.WithoutPosition(k);
            forall i :: i != s.entities[k].index ==> after.Get(i) == s.Get(i) && after.Owner(i) == s.Owner(i)
  {
  }
}
