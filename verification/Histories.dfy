/** Whole histories of a world, from `World::new` on: callers register components and bundles between operations. */
module Histories {
  import opened Collections
  import opened Storage
  import opened Locations
  import opened Stores
  import opened Graph
  import opened EdgeTargets
  import opened Removals
  import opened Inserters
  import opened Semantics
  import opened Removers
  import opened Worlds

  datatype Action =
    | NewComponent(info: ComponentInfo)
    | NewBundle(ids: seq<ComponentId>)
    | Perform(op: Op)

  /** What has been registered after some actions; a bundle with repetitions has been refused. */
  ghost function RegistryAfter(actions: seq<Action>): Registry {
    if actions == [] then Registry([], [])
    else
      var r := RegistryAfter(actions[..|actions| - 1]);
      match actions[|actions| - 1]
      case NewComponent(info) => r.(infos := r.infos + [info])
      case NewBundle(ids) => if NoDuplicates(ids) then r.(bundles := r.bundles + [ids]) else r
      case Perform(_) => r
  }

  predicate ActionTyped(r: Registry, action: Action) {
    match action
    case NewComponent(_) => true
    case NewBundle(ids) => forall k :: 0 <= k < |ids| ==> ids[k] < |r.infos|
    case Perform(op) => OpTyped(r, op)
  }

  ghost predicate ActionsTyped(actions: seq<Action>) {
    forall k :: 0 <= k < |actions| ==> ActionTyped(RegistryAfter(actions[..k]), actions[k])
  }

  ghost predicate ActionSplits(s: Store, action: Action) {
    action.Perform? && OpSplits(s, action.op)
  }

  /** What one action does, as far as a caller, the tables and the handles are concerned. */
  ghost predicate Leads(s: Store, action: Action, t: Store) {
    && Inv(s) && Inv(t)
    && Observed(s, action, t)
    && (EmptyTableSplit(t.archetypes) <==> EmptyTableSplit(s.archetypes) || ActionSplits(s, action))
    && HandlesAdvance(s.meta, t.meta)
  }

  ghost predicate Observed(s: Store, action: Action, t: Store) {
    var r := Registry(s.components, s.bundles);
    if action.Perform? then
      && OpTyped(r, action.op)
      && exists step :: Takes(action.op, r, step) && step.before == Abs(s) && step.after == Abs(t)
    else Abs(t) == Abs(s)
  }

  /** The states that a new world goes through. */
  ghost predicate History(actions: seq<Action>, states: seq<Store>) {
    && |states| == |actions| + 1
    && Inv(states[0]) && states[0].meta == [] && !EmptyTableSplit(states[0].archetypes)
    && forall k :: 0 <= k < |actions| ==> Leads(states[k], actions[k], states[k + 1])
  }

  // ---- every world has a history -------------------------------------------------------------

  method Live(actions: seq<Action>) returns (w: World, ghost states: seq<Store>)
    requires ActionsTyped(actions)
    ensures fresh(w) && w.Valid() && w.Registered() == RegistryAfter(actions)
    ensures History(actions, states) && states[|actions|] == w.S()
  {
    hide Inv, ArchetypeIds.IdsExact, Abs, EmptyTableSplit, HandlesAdvance, Leads, OpTyped;
    w := new World();
    states := [w.S()];
    NewWorldIsWhole(w.S());
    for k := 0 to |actions|
      invariant fresh(w) && w.Valid() && w.Registered() == RegistryAfter(actions[..k])
      invariant History(actions[..k], states) && states[k] == w.S()
    {
      assert actions[..k + 1] == actions[..k] + [actions[k]];
      assert actions[..k + 1][..k] == actions[..k];
      Act(w, actions[k]);
      HistorySnoc(actions[..k], states, actions[k], w.S());
      states := states + [w.S()];
    }
    assert actions[..|actions|] == actions;
  }

  method Act(w: World, action: Action)
    requires w.Valid() && ActionTyped(w.Registered(), action)
    modifies w
    ensures w.Valid()
    ensures var r := old(w.Registered());
            w.Registered()
            == match action
               case NewComponent(info) => r.(infos := r.infos + [info])
               case NewBundle(ids) => if NoDuplicates(ids) then r.(bundles := r.bundles + [ids]) else r
               case Perform(_) => r
    ensures Leads(old(w.S()), action, w.S())
  {
    hide Inv, ArchetypeIds.IdsExact, Abs, EmptyTableSplit, HandlesAdvance, OpTyped, OpSplits, Takes, NoneFreed;
    ghost var s := w.S();
    NoneFreedIsReflexive(w.meta);
    match action {
      case NewComponent(info) =>
        var id := w.RegisterComponent(info);
        NoneFreedAdvances(s, w.meta);
      case NewBundle(ids) =>
        var bundle := w.RegisterBundle(ids);
        NoneFreedAdvances(s, w.meta);
      case Perform(op) =>
        ghost var step := w.Apply(w.Registered(), op);
    }
  }

  lemma NewWorldIsWhole(s: Store)
    requires Inv(s) && |s.archetypes| == 1
    ensures !EmptyTableSplit(s.archetypes)
  {
    hide Coherent, DataInv, BundlesWf, TablesCanonical, ByComponentsExact, EdgesExact, ArchetypeWf;
  }

  lemma HistorySnoc(actions: seq<Action>, states: seq<Store>, action: Action, t: Store)
    requires History(actions, states) && Leads(states[|actions|], action, t)
    ensures History(actions + [action], states + [t])
  {
    hide Leads, Inv, EmptyTableSplit;
    var actions', states' := actions + [action], states + [t];
    forall k | 0 <= k < |actions'|
      ensures Leads(states'[k], actions'[k], states'[k + 1])
    {
      if k < |actions| {
        assert states'[k + 1] == states[k + 1];
      }
    }
  }

  lemma HistoryLink(actions: seq<Action>, states: seq<Store>, k: nat)
    requires History(actions, states) && k < |actions|
    ensures Inv(states[k]) && Inv(states[k + 1])
    ensures HandlesAdvance(states[k].meta, states[k + 1].meta)
    ensures EmptyTableSplit(states[k + 1].archetypes)
            <==> EmptyTableSplit(states[k].archetypes) || ActionSplits(states[k], actions[k])
  {
    hide Inv, EmptyTableSplit, HandlesAdvance, ActionSplits, Observed;
    assert Leads(states[k], actions[k], states[k + 1]);
  }

  // ---- one table per set of table components -------------------------------------------------

  /** One of the first `n` actions gave an archetype a second empty table. */
  ghost predicate SomeSplits(actions: seq<Action>, states: seq<Store>, n: nat)
    requires n <= |actions| <= |states|
  {
    exists k :: 0 <= k < n && ActionSplits(states[k], actions[k])
  }

  lemma SomeSplitsStep(actions: seq<Action>, states: seq<Store>, n: nat)
    requires n < |actions| <= |states|
    ensures SomeSplits(actions, states, n + 1)
            <==> SomeSplits(actions, states, n) || ActionSplits(states[n], actions[n])
  {
    hide ActionSplits;
  }

  lemma {:induction false} SplitSoFar(actions: seq<Action>, states: seq<Store>, n: nat)
    requires History(actions, states) && n <= |actions|
    ensures EmptyTableSplit(states[n].archetypes) <==> SomeSplits(actions, states, n)
  {
    hide Inv, EmptyTableSplit, ActionSplits, Leads;
    if n > 0 {
      hide SomeSplits, History;
      SplitSoFar(actions, states, n - 1);
      HistoryLink(actions, states, n - 1);
      SomeSplitsStep(actions, states, n - 1);
    }
  }

  lemma HistoryStart(actions: seq<Action>, states: seq<Store>)
    requires History(actions, states)
    ensures |states| == |actions| + 1
    ensures Inv(states[0]) && states[0].meta == [] && !EmptyTableSplit(states[0].archetypes)
  {
  }

  /**
    In every reachable world, archetypes share a table exactly when they have the same table components, unless
    some removal led to a new archetype that had all of its table components taken away.
   */
  lemma TablesMirrorIff(actions: seq<Action>, states: seq<Store>)
    requires History(actions, states)
    ensures TablesMirrorComponents(states[|actions|])
            <==> !SomeSplits(actions, states, |actions|)
  {
    var n := |actions|;
    assert Inv(states[n]) by {
      hide Inv, EmptyTableSplit;
      if n > 0 {
        HistoryLink(actions, states, n - 1);
      }
    }
    SplitSoFar(actions, states, n);
    InvParts(states[n]);
    hide Inv, Coherent, DataInv, BundlesWf, TablesCanonical, ByComponentsExact, EdgesExact, ArchetypesWf;
    hide EmptyTableSplit, TablesMirrorComponents, ActionSplits;
    TablesMirrorComponentsIff(states[n]);
  }

  predicate TakesNothingOff(action: Action) {
    action.Perform? ==> !action.op.RemoveOp? && !action.op.TakeOp?
  }

  /** So it holds in every world that has only registered, spawned, inserted and despawned. */
  lemma WithoutRemovalsTablesMirror(actions: seq<Action>, states: seq<Store>)
    requires History(actions, states)
    requires forall k :: 0 <= k < |actions| ==> TakesNothingOff(actions[k])
    ensures TablesMirrorComponents(states[|actions|])
  {
    hide History, TablesMirrorComponents;
    TablesMirrorIff(actions, states);
  }

  /** As long as it holds, two entities share a table exactly when they have the same table components. */
  lemma EntitiesShareTables(s: Store, x: Entity, y: Entity)
    requires Inv(s) && !EmptyTableSplit(s.archetypes)
    requires EntitiesGet(s.meta, x).Some? && EntitiesGet(s.meta, y).Some?
    ensures x in Abs(s) && y in Abs(s)
    ensures EntitiesGet(s.meta, x).value.tableId == EntitiesGet(s.meta, y).value.tableId
            <==> OfStorage(s.components, Abs(s)[x].Keys, InTable) == OfStorage(s.components, Abs(s)[y].Keys, InTable)
  {
    hide Inv, EmptyTableSplit, Abs, OfStorage, Archetype.ComponentSet, TableComponents, SetsHold;
    EntityHas(s, x);
    EntityHas(s, y);
    LocationsAgree(s, x.index);
    LocationsAgree(s, y.index);
    var a, b := EntitiesGet(s.meta, x).value.archetypeId, EntitiesGet(s.meta, y).value.archetypeId;
    InvParts(s);
    hide Coherent, DataInv;
    ListsOfArchetype(s, a);
    ListsOfArchetype(s, b);
    hide BundlesWf, TablesCanonical, ByComponentsExact, EdgesExact, ArchetypesWf, ToSet, StrictlySorted;
    TablesMirrorComponentsIff(s);
    if ToSet(TableComponents(s.archetypes[a])) == ToSet(TableComponents(s.archetypes[b])) {
      SortedListsAreCanonical(TableComponents(s.archetypes[a]), TableComponents(s.archetypes[b]));
    }
  }

  // ---- stale handles ---------------------------------------------------------------------------

  predicate IndexFreed(before: seq<EntityMeta>, after: seq<EntityMeta>, i: nat) {
    i < |before| && i < |after| && Freed(before[i], after[i])
  }

  /** How often index `i` has been freed in the first `n` actions. */
  function Frees(states: seq<Store>, i: nat, n: nat): nat
    requires n < |states|
  {
    if n == 0 then 0
    else Frees(states, i, n - 1) + if IndexFreed(states[n - 1].meta, states[n].meta, i) then 1 else 0
  }

  lemma NextGenerationCounts(n: nat)
    ensures NextGeneration(1 + n % MAX_GENERATION) == 1 + (n + 1) % MAX_GENERATION
  {
    var q := n / MAX_GENERATION;
    if n % MAX_GENERATION == MAX_GENERATION - 1 {
      assert n + 1 == (q + 1) * MAX_GENERATION;
    } else {
      assert n + 1 == q * MAX_GENERATION + (n % MAX_GENERATION + 1);
    }
  }

  /** The generation of an index counts how often it was freed, modulo 2^31 - 1. */
  lemma {:induction false} GenerationCountsFrees(actions: seq<Action>, states: seq<Store>, i: nat, n: nat)
    requires History(actions, states) && n <= |actions|
    ensures if i < |states[n].meta| then states[n].meta[i].generation == 1 + Frees(states, i, n) % MAX_GENERATION
            else Frees(states, i, n) == 0
  {
    hide Inv, EmptyTableSplit, Leads;
    if n > 0 {
      GenerationCountsFrees(actions, states, i, n - 1);
      HistoryLink(actions, states, n - 1);
      NextGenerationCounts(Frees(states, i, n - 1));
      assert i < |states[n - 1].meta| ==> HandleAdvances(states[n - 1].meta[i], states[n].meta[i]);
    }
  }

  lemma {:induction false} FreesGrow(states: seq<Store>, i: nat, j: nat, n: nat)
    requires j <= n < |states|
    ensures Frees(states, i, j) <= Frees(states, i, n)
  {
    if j < n {
      FreesGrow(states, i, j, n - 1);
    }
  }

  /** A handle is handed out again exactly after a multiple of 2^31 - 1 frees of its index. */
  lemma HandlesRepeatIff(actions: seq<Action>, states: seq<Store>, i: nat, j: nat, n: nat)
    requires History(actions, states) && j <= n <= |actions|
    requires i < |states[j].meta| && i < |states[n].meta|
    ensures states[n].meta[i].generation == states[j].meta[i].generation
            <==> (Frees(states, i, n) - Frees(states, i, j)) % MAX_GENERATION == 0
  {
    hide History, Frees;
    assert |states| == |actions| + 1 by {
      HistoryStart(actions, states);
    }
    GenerationCountsFrees(actions, states, i, j);
    GenerationCountsFrees(actions, states, i, n);
    FreesGrow(states, i, j, n);
    SameResidueIff(Frees(states, i, j), Frees(states, i, n), MAX_GENERATION);
  }

  lemma SameResidueIff(a: nat, b: nat, m: nat)
    requires a <= b && m > 0
    ensures a % m == b % m <==> (b - a) % m == 0
  {
    var d, r := b / m - a / m, b % m - a % m;
    var q, rest := (b - a) / m, (b - a) % m;
    assert m * (q - d) == r - rest;
    SmallMultiple(q - d, m);
  }

  lemma SmallMultiple(k: int, m: int)
    requires m > 0
    ensures k == 0 || m * k >= m || m * k <= -m
  {
  }

  /** Only freeing its index ends the life of an entity. */
  lemma {:induction false} AliveUntilFreed(actions: seq<Action>, states: seq<Store>, e: Entity, j: nat, n: nat)
    requires History(actions, states) && j <= n <= |actions|
    requires EntitiesGet(states[j].meta, e).Some?
    requires Frees(states, e.index, n) == Frees(states, e.index, j)
    ensures EntitiesGet(states[n].meta, e).Some?
  {
    hide Inv, EmptyTableSplit, Leads;
    if j < n {
      FreesGrow(states, e.index, j, n - 1);
      AliveUntilFreed(actions, states, e, j, n - 1);
      HistoryLink(actions, states, n - 1);
      assert HandleAdvances(states[n - 1].meta[e.index], states[n].meta[e.index]);
    }
  }

  /**
    A handle that has gone stale stays stale: an entity that was alive, is dead, and is alive again later has had
    its index freed at least 2^31 - 1 times in between.
   */
  lemma StaleHandlesStayStale(actions: seq<Action>, states: seq<Store>, e: Entity, j: nat, m: nat, n: nat)
    requires History(actions, states) && j <= m <= n <= |actions|
    requires e in Abs(states[j]) && e !in Abs(states[m]) && e in Abs(states[n])
    ensures Frees(states, e.index, n) - Frees(states, e.index, j) >= MAX_GENERATION
  {
    LiveEntities(states[j], e);
    LiveEntities(states[m], e);
    LiveEntities(states[n], e);
    hide History, Abs, Frees;
    assert |states| == |actions| + 1 by {
      HistoryStart(actions, states);
    }
    FreesGrow(states, e.index, j, m);
    FreesGrow(states, e.index, m, n);
    if Frees(states, e.index, m) == Frees(states, e.index, j) {
      AliveUntilFreed(actions, states, e, j, m);
    }
    GenerationCountsFrees(actions, states, e.index, j);
    GenerationCountsFrees(actions, states, e.index, n);
    SameResidue(Frees(states, e.index, j), Frees(states, e.index, n), MAX_GENERATION);
  }

  lemma SameResidue(a: nat, b: nat, m: nat)
    requires a < b && m > 0 && a % m == b % m
    ensures b - a >= m
  {
    SameResidueIff(a, b, m);
  }
}
