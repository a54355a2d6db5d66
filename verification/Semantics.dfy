/**
  The simple thing a world implements: a map from entities to component maps, changed one operation at a
  time. `World` is proved to take only these steps; here are the laws that every run of them obeys.
 */
module Semantics {
  import opened Collections
  import opened Storage
  import opened Stores
  import opened Writes
  import opened Triggers

  type Entities = map<Entity, Components>

  /** Bundles are given by id. A caller's bundle type fixes how many values come with it. */
  datatype Op =
    | SpawnOp(bundle: nat, values: seq<Value>, tick: Tick)
    | InsertOp(entity: Entity, bundle: nat, values: seq<Value>, tick: Tick)
    | RemoveOp(entity: Entity, bundle: nat)
    | TakeOp(entity: Entity, bundle: nat)
    | DespawnOp(entity: Entity)

  /** One operation: the world before and after, the hooks fired, and the removal events sent. */
  datatype Step = Step(before: Entities, after: Entities, fired: seq<Trigger>, removed: seq<(ComponentId, Entity)>)

  /** Hooks run on registered components, each listed at most once by its bundle. */
  datatype Registry = Registry(infos: seq<ComponentInfo>, bundles: seq<seq<ComponentId>>) {
    ghost predicate Wf() {
      BundlesWf(infos, bundles)
    }
  }

  predicate OpTyped(r: Registry, op: Op) {
    match op
    case SpawnOp(b, values, _) => b < |r.bundles| && |values| == |r.bundles[b]|
    case InsertOp(_, b, values, _) => b < |r.bundles| && |values| == |r.bundles[b]|
    case RemoveOp(_, b) => b < |r.bundles|
    case TakeOp(_, b) => b < |r.bundles|
    case DespawnOp(_) => true
  }

  /** All `on_add` hooks of the components that were absent, then all `on_insert` hooks, both in bundle order. */
  function InsertTriggers(infos: seq<ComponentInfo>, e: Entity, bundle: seq<ComponentId>,
                          here: set<ComponentId>): seq<Trigger>
  {
    Fired(infos, OnAdd, e, Without(bundle, here)) + Fired(infos, OnInsert, e, bundle)
  }

  /** `removed_components`: one event for each component that goes away, in the order of `targets`. */
  function RemovedEvents(e: Entity, targets: seq<ComponentId>): seq<(ComponentId, Entity)> {
    seq(|targets|, k requires 0 <= k < |targets| => (targets[k], e))
  }

  predicate AllTyped(r: Registry, ops: seq<Op>) {
    forall k :: 0 <= k < |ops| ==> OpTyped(r, ops[k])
  }

  /** The operations that a batch spawn stands for. */
  function SpawnOps(bundle: nat, batch: seq<seq<Value>>, tick: Tick): seq<Op> {
    seq(|batch|, k requires 0 <= k < |batch| => SpawnOp(bundle, batch[k], tick))
  }

  ghost predicate Spawns(infos: seq<ComponentInfo>, bundle: seq<ComponentId>, values: seq<Value>, tick: Tick, e: Entity,
                         s: Step)
  {
    && |bundle| == |values| && e !in s.before
    && s.after == s.before[e := Overwrite(map[], bundle, values, tick)]
    && s.fired == InsertTriggers(infos, e, bundle, {})
    && s.removed == []
  }

  ghost predicate Inserts(infos: seq<ComponentInfo>, bundle: seq<ComponentId>, values: seq<Value>, tick: Tick,
                          e: Entity, s: Step)
  {
    && |bundle| == |values| && e in s.before
    && s.after == s.before[e := Overwrite(s.before[e], bundle, values, tick)]
    && s.fired == InsertTriggers(infos, e, bundle, s.before[e].Keys)
    && s.removed == []
  }

  ghost predicate Removes(infos: seq<ComponentInfo>, bundle: seq<ComponentId>, e: Entity, s: Step) {
    && e in s.before
    && s.after == s.before[e := s.before[e] - ToSet(bundle)]
    && s.fired == RemoveTriggers(infos, e, bundle, s.before[e].Keys)
    && s.removed == RemovedEvents(e, Within(bundle, s.before[e].Keys))
  }

  /** The order in which a despawned entity's components are reported is that of its archetype. */
  ghost predicate Despawns(infos: seq<ComponentInfo>, e: Entity, order: seq<ComponentId>, s: Step) {
    && e in s.before
    && NoDuplicates(order) && ToSet(order) == s.before[e].Keys
    && s.after == s.before - {e}
    && s.fired == Fired(infos, OnRemove, e, order)
    && s.removed == RemovedEvents(e, order)
  }

  ghost predicate Nothing(s: Step) {
    s.after == s.before && s.fired == [] && s.removed == []
  }

  ghost predicate Takes(op: Op, r: Registry, s: Step)
    requires OpTyped(r, op)
  {
    match op
    case SpawnOp(b, values, tick) => exists e :: Spawns(r.infos, r.bundles[b], values, tick, e, s)
    case InsertOp(e, b, values, tick) =>
      if e in s.before then Inserts(r.infos, r.bundles[b], values, tick, e, s) else Nothing(s)
    case RemoveOp(e, b) =>
      if e in s.before then Removes(r.infos, r.bundles[b], e, s) else Nothing(s)
    case TakeOp(e, b) =>
      if e in s.before && ToSet(r.bundles[b]) <= s.before[e].Keys then Removes(r.infos, r.bundles[b], e, s)
      else Nothing(s)
    case DespawnOp(e) =>
      if e in s.before then exists order :: Despawns(r.infos, e, order, s) else Nothing(s)
  }

  /** A run: each operation takes a step from where the one before it ended. */
  ghost predicate Run(r: Registry, ops: seq<Op>, start: Entities, steps: seq<Step>, end: Entities)
    requires AllTyped(r, ops)
  {
    && |steps| == |ops|
    && (forall k :: 0 <= k < |ops| ==> Takes(ops[k], r, steps[k]))
    && (forall k :: 0 <= k < |ops| ==> steps[k].before == StateAt(start, steps, k))
    && end == StateAt(start, steps, |steps|)
  }

  /** The world after the first `k` steps. */
  function StateAt(start: Entities, steps: seq<Step>, k: nat): Entities
    requires k <= |steps|
  {
    if k == 0 then start else steps[k - 1].after
  }

  function AllFired(steps: seq<Step>): seq<Trigger> {
    if steps == [] then [] else AllFired(steps[..|steps| - 1]) + steps[|steps| - 1].fired
  }

  function AllRemoved(steps: seq<Step>): seq<(ComponentId, Entity)> {
    if steps == [] then [] else AllRemoved(steps[..|steps| - 1]) + steps[|steps| - 1].removed
  }

  // ---- single steps ------------------------------------------------------------------------

  predicate Has(m: Entities, e: Entity, c: ComponentId) {
    e in m && c in m[e]
  }

  function Indicator(b: bool): nat {
    if b then 1 else 0
  }

  function Arrives(s: Step, e: Entity, c: ComponentId): nat {
    Indicator(!Has(s.before, e, c) && Has(s.after, e, c))
  }

  function Departs(s: Step, e: Entity, c: ComponentId): nat {
    Indicator(Has(s.before, e, c) && !Has(s.after, e, c))
  }

  /** A hook fires once per occurrence of its component among the targets, for that entity only. */
  lemma {:induction false} FiredCount(infos: seq<ComponentInfo>, kind: TriggerKind, e: Entity,
                                      targets: seq<ComponentId>, t: Trigger)
    requires NoDuplicates(targets)
    ensures multiset(Fired(infos, kind, e, targets))[t]
            == Indicator(t.kind == kind && t.entity == e && Hooked(infos, kind, t.component) && t.component in targets)
  {
    if targets != [] {
      var n := |targets| - 1;
      FiredCount(infos, kind, e, targets[..n], t);
      assert targets == targets[..n] + [targets[n]];
      FiredSnoc(infos, kind, e, targets[..n], targets[n]);
      hide Hooked, Fired;
      assert targets[n] !in targets[..n];
      assert t.component in targets <==> t.component in targets[..n] || t.component == targets[n];
    }
  }

  lemma {:induction false} EventCount(e: Entity, targets: seq<ComponentId>, c: ComponentId, x: Entity)
    requires NoDuplicates(targets)
    ensures multiset(RemovedEvents(e, targets))[(c, x)] == Indicator(x == e && c in targets)
  {
    if targets != [] {
      var n := |targets| - 1;
      EventCount(e, targets[..n], c, x);
      assert targets == targets[..n] + [targets[n]];
      assert RemovedEvents(e, targets) == RemovedEvents(e, targets[..n]) + [(targets[n], e)];
      assert targets[n] !in targets[..n];
    }
  }

  lemma {:induction false} WithinHasNoDuplicates(targets: seq<ComponentId>, here: set<ComponentId>)
    requires NoDuplicates(targets)
    ensures NoDuplicates(Within(targets, here))
    ensures forall c :: c in Within(targets, here) <==> c in targets && c in here
  {
    if targets != [] {
      var n := |targets| - 1;
      WithinHasNoDuplicates(targets[..n], here);
      assert targets == targets[..n] + [targets[n]];
    }
  }

  lemma WithoutMembers(targets: seq<ComponentId>, here: set<ComponentId>)
    requires NoDuplicates(targets)
    ensures NoDuplicates(Without(targets, here))
    ensures forall c :: c in Without(targets, here) <==> c in targets && c !in here
  {
    WithoutHasNoDuplicates(targets, here);
    assert forall c :: c in Without(targets, here) <==> c in ToSet(Without(targets, here));
  }

  lemma {:induction false} OverwriteKeys(m: Components, bundle: seq<ComponentId>, values: seq<Value>, tick: Tick)
    requires |bundle| == |values|
    ensures Overwrite(m, bundle, values, tick).Keys == m.Keys + ToSet(bundle)
  {
    if bundle != [] {
      var n := |bundle| - 1;
      OverwriteKeys(m, bundle[..n], values[..n], tick);
      assert bundle == bundle[..n] + [bundle[n]];
    }
  }

  /**
    Which hooks a step calls: `on_add` of what arrives, `on_insert` of all that is inserted, and `on_remove` of
    the whole bundle as soon as the entity has one of its components and some component with such a hook.
   */
  ghost predicate Calls(r: Registry, op: Op, s: Step, kind: TriggerKind, e: Entity, c: ComponentId)
    requires OpTyped(r, op)
  {
    && Hooked(r.infos, kind, c)
    && match kind
       case OnAdd => !Has(s.before, e, c) && Has(s.after, e, c)
       case OnInsert =>
         (match op
          case SpawnOp(b, _, _) => e !in s.before && e in s.after && c in r.bundles[b]
          case InsertOp(x, b, _, _) => x == e && e in s.before && c in r.bundles[b]
          case _ => false)
       case OnRemove =>
         (match op
          case RemoveOp(x, b) => x == e && c in r.bundles[b] && RemoveHooksRun(r.infos, r.bundles[b], s.before, e)
          case TakeOp(x, b) =>
            x == e && c in r.bundles[b] && forall d :: d in r.bundles[b] ==> Has(s.before, e, d)
          case DespawnOp(x) => x == e && Has(s.before, e, c)
          case _ => false)
  }

  ghost predicate RemoveHooksRun(infos: seq<ComponentInfo>, bundle: seq<ComponentId>, before: Entities, e: Entity) {
    && (exists d :: d in bundle && Has(before, e, d))
    && (exists d :: Hooked(infos, OnRemove, d) && Has(before, e, d))
  }

  /** What a step does to the hooks and events of one component of one entity: each is called once or not at all. */
  ghost predicate Accounted(r: Registry, op: Op, s: Step, e: Entity, c: ComponentId)
    requires OpTyped(r, op)
  {
    && multiset(s.fired)[Trigger(OnAdd, e, c)] == Indicator(Calls(r, op, s, OnAdd, e, c))
    && multiset(s.fired)[Trigger(OnInsert, e, c)] == Indicator(Calls(r, op, s, OnInsert, e, c))
    && multiset(s.fired)[Trigger(OnRemove, e, c)] == Indicator(Calls(r, op, s, OnRemove, e, c))
    && multiset(s.removed)[(c, e)] == Departs(s, e, c)
  }

  lemma InsertTriggersCount(infos: seq<ComponentInfo>, e: Entity, bundle: seq<ComponentId>, here: set<ComponentId>,
                            x: Entity, c: ComponentId)
    requires NoDuplicates(bundle)
    ensures multiset(InsertTriggers(infos, e, bundle, here))[Trigger(OnAdd, x, c)]
            == Indicator(x == e && Hooked(infos, OnAdd, c) && c in bundle && c !in here)
    ensures multiset(InsertTriggers(infos, e, bundle, here))[Trigger(OnInsert, x, c)]
            == Indicator(x == e && Hooked(infos, OnInsert, c) && c in bundle)
    ensures multiset(InsertTriggers(infos, e, bundle, here))[Trigger(OnRemove, x, c)] == 0
  {
    WithoutMembers(bundle, here);
    hide NoDuplicates, Without, Fired, Hooked;
    forall kind: TriggerKind
      ensures multiset(Fired(infos, OnAdd, e, Without(bundle, here)))[Trigger(kind, x, c)]
              == Indicator(kind == OnAdd && x == e && Hooked(infos, OnAdd, c) && c in Without(bundle, here))
      ensures multiset(Fired(infos, OnInsert, e, bundle))[Trigger(kind, x, c)]
              == Indicator(kind == OnInsert && x == e && Hooked(infos, OnInsert, c) && c in bundle)
    {
      FiredCount(infos, OnAdd, e, Without(bundle, here), Trigger(kind, x, c));
      FiredCount(infos, OnInsert, e, bundle, Trigger(kind, x, c));
    }
  }

  /** Inserting over the components `m` of entity `e` (none, when spawning). */
  lemma OverwritingCounts(infos: seq<ComponentInfo>, bundle: seq<ComponentId>, values: seq<Value>, tick: Tick,
                          e: Entity, m: Components, s: Step, x: Entity, c: ComponentId)
    requires |bundle| == |values| && NoDuplicates(bundle)
    requires if e in s.before then m == s.before[e] else m == map[]
    requires s.after == s.before[e := Overwrite(m, bundle, values, tick)]
    requires s.fired == InsertTriggers(infos, e, bundle, m.Keys) && s.removed == []
    ensures multiset(s.fired)[Trigger(OnAdd, x, c)]
            == Indicator(Hooked(infos, OnAdd, c) && !Has(s.before, x, c) && Has(s.after, x, c))
    ensures multiset(s.fired)[Trigger(OnInsert, x, c)] == Indicator(Hooked(infos, OnInsert, c) && x == e && c in bundle)
    ensures multiset(s.fired)[Trigger(OnRemove, x, c)] == 0
    ensures multiset(s.removed)[(c, x)] == 0 && !(Has(s.before, x, c) && !Has(s.after, x, c))
  {
    OverwriteKeys(m, bundle, values, tick);
    InsertTriggersCount(infos, e, bundle, m.Keys, x, c);
    hide Overwrite, InsertTriggers, Hooked, NoDuplicates;
    assert multiset(s.removed) == multiset{};
    if x == e {
      assert c in Overwrite(m, bundle, values, tick).Keys <==> c in m.Keys || c in ToSet(bundle);
      assert Has(s.before, e, c) <==> c in m.Keys;
      assert Has(s.after, e, c) <==> c in m.Keys || c in bundle;
    }
  }

  lemma RemoveTriggersCount(infos: seq<ComponentInfo>, e: Entity, bundle: seq<ComponentId>, here: set<ComponentId>,
                            t: Trigger)
    requires NoDuplicates(bundle)
    ensures multiset(RemoveTriggers(infos, e, bundle, here))[t]
            == Indicator(t.kind == OnRemove && t.entity == e && Hooked(infos, OnRemove, t.component)
                         && t.component in bundle && !(ToSet(bundle) !! here) && AnyHooked(infos, OnRemove, here))
  {
    FiredCount(infos, OnRemove, e, bundle, t);
    hide Fired, Hooked, AnyHooked;
    var none: seq<Trigger> := [];
    assert multiset(none) == multiset{};
  }

  /** The hooks of a removal, one by one. */
  lemma RemovalCounts(infos: seq<ComponentInfo>, bundle: seq<ComponentId>, e: Entity, s: Step, x: Entity,
                      c: ComponentId)
    requires NoDuplicates(bundle) && Removes(infos, bundle, e, s)
    ensures multiset(s.fired)[Trigger(OnAdd, x, c)] == multiset(s.fired)[Trigger(OnInsert, x, c)] == 0
    ensures multiset(s.fired)[Trigger(OnRemove, x, c)]
            == Indicator(Hooked(infos, OnRemove, c) && x == e && c in bundle
                         && RemoveHooksRun(infos, bundle, s.before, e))
    ensures multiset(s.removed)[(c, x)] == Indicator(x == e && Has(s.before, e, c) && c in bundle)
    ensures Has(s.after, x, c) <==> Has(s.before, x, c) && !(x == e && c in bundle)
  {
    var here := s.before[e].Keys;
    RemoveTriggersCount(infos, e, bundle, here, Trigger(OnAdd, x, c));
    RemoveTriggersCount(infos, e, bundle, here, Trigger(OnInsert, x, c));
    RemoveTriggersCount(infos, e, bundle, here, Trigger(OnRemove, x, c));
    WithinHasNoDuplicates(bundle, here);
    EventCount(e, Within(bundle, here), c, x);
    RemoveHooksRunIff(infos, bundle, s.before, e);
    hide RemoveTriggers, Hooked, NoDuplicates, Within, RemovedEvents, RemoveHooksRun, AnyHooked;
    if x == e {
      assert Has(s.before, e, c) <==> c in here;
      assert Has(s.after, e, c) <==> c in here && c !in bundle;
    }
  }

  lemma RemoveHooksRunIff(infos: seq<ComponentInfo>, bundle: seq<ComponentId>, before: Entities, e: Entity)
    requires e in before
    ensures RemoveHooksRun(infos, bundle, before, e)
            <==> !(ToSet(bundle) !! before[e].Keys) && AnyHooked(infos, OnRemove, before[e].Keys)
  {
    hide Hooked;
    var here := before[e].Keys;
    assert forall d :: Has(before, e, d) <==> d in here;
    if !(ToSet(bundle) !! here) {
      var d :| d in ToSet(bundle) && d in here;
      assert d in bundle && Has(before, e, d);
    }
    if d :| d in bundle && Has(before, e, d) {
      assert d in ToSet(bundle) && d in here;
    }
    if AnyHooked(infos, OnRemove, here) {
      var d :| d in here && Hooked(infos, OnRemove, d);
      assert Hooked(infos, OnRemove, d) && Has(before, e, d);
    }
    if d :| Hooked(infos, OnRemove, d) && Has(before, e, d) {
      assert d in here && Hooked(infos, OnRemove, d);
    }
  }

  lemma DespawnCounts(infos: seq<ComponentInfo>, e: Entity, order: seq<ComponentId>, s: Step, x: Entity,
                      c: ComponentId)
    requires Despawns(infos, e, order, s)
    ensures multiset(s.fired)[Trigger(OnAdd, x, c)] == multiset(s.fired)[Trigger(OnInsert, x, c)] == 0
    ensures multiset(s.fired)[Trigger(OnRemove, x, c)]
            == Indicator(Hooked(infos, OnRemove, c) && x == e && Has(s.before, e, c))
    ensures multiset(s.removed)[(c, x)] == Indicator(x == e && Has(s.before, e, c))
    ensures Has(s.after, x, c) <==> Has(s.before, x, c) && x != e
  {
    FiredCount(infos, OnRemove, e, order, Trigger(OnAdd, x, c));
    FiredCount(infos, OnRemove, e, order, Trigger(OnInsert, x, c));
    FiredCount(infos, OnRemove, e, order, Trigger(OnRemove, x, c));
    EventCount(e, order, c, x);
    hide Fired, Hooked, NoDuplicates, RemovedEvents;
    assert c in order <==> c in ToSet(order);
  }

  lemma StepIsAccounted(r: Registry, op: Op, s: Step, x: Entity, c: ComponentId)
    requires r.Wf() && OpTyped(r, op) && Takes(op, r, s)
    ensures Accounted(r, op, s, x, c)
  {
    hide Hooked, Overwrite, InsertTriggers, NoDuplicates, RemoveHooksRun, Removes, Accounted;
    match op {
      case SpawnOp(b, values, tick) =>
        SpawnIsAccounted(r, op, s, x, c);
      case InsertOp(e, b, values, tick) =>
        InsertIsAccounted(r, op, s, x, c);
      case RemoveOp(e, b) =>
        RemovalIsAccounted(r, op, s, x, c);
      case TakeOp(e, b) =>
        TakeIsAccounted(r, op, s, x, c);
      case DespawnOp(e) =>
        DespawnIsAccounted(r, op, s, x, c);
    }
  }

  lemma SpawnIsAccounted(r: Registry, op: Op, s: Step, x: Entity, c: ComponentId)
    requires r.Wf() && op.SpawnOp? && OpTyped(r, op) && Takes(op, r, s)
    ensures Accounted(r, op, s, x, c)
  {
    hide Hooked, Overwrite, InsertTriggers, NoDuplicates;
    var e :| Spawns(r.infos, r.bundles[op.bundle], op.values, op.tick, e, s);
    var none: Components := map[];
    assert none.Keys == {};
    OverwritingCounts(r.infos, r.bundles[op.bundle], op.values, op.tick, e, none, s, x, c);
    assert x in s.after && x !in s.before <==> x == e;
  }

  lemma InsertIsAccounted(r: Registry, op: Op, s: Step, x: Entity, c: ComponentId)
    requires r.Wf() && op.InsertOp? && OpTyped(r, op) && Takes(op, r, s)
    ensures Accounted(r, op, s, x, c)
  {
    hide Hooked, Overwrite, InsertTriggers, NoDuplicates;
    var e := op.entity;
    if e in s.before {
      OverwritingCounts(r.infos, r.bundles[op.bundle], op.values, op.tick, e, s.before[e], s, x, c);
    } else {
      NothingCounts(s, x, c);
    }
  }

  lemma RemovalIsAccounted(r: Registry, op: Op, s: Step, x: Entity, c: ComponentId)
    requires r.Wf() && op.RemoveOp? && OpTyped(r, op) && Takes(op, r, s)
    ensures Accounted(r, op, s, x, c)
  {
    hide Hooked, NoDuplicates, RemoveHooksRun, Removes;
    var e := op.entity;
    if e in s.before {
      RemovalCounts(r.infos, r.bundles[op.bundle], e, s, x, c);
    } else {
      NothingCounts(s, x, c);
      NothingToRun(r.infos, r.bundles[op.bundle], s.before, e);
    }
  }

  lemma TakeIsAccounted(r: Registry, op: Op, s: Step, x: Entity, c: ComponentId)
    requires r.Wf() && op.TakeOp? && OpTyped(r, op) && Takes(op, r, s)
    ensures Accounted(r, op, s, x, c)
  {
    hide Hooked, NoDuplicates, RemoveHooksRun, Removes;
    var e, bundle := op.entity, r.bundles[op.bundle];
    TakingAll(bundle, s.before, e);
    if e in s.before && ToSet(bundle) <= s.before[e].Keys {
      RemovalCounts(r.infos, bundle, e, s, x, c);
      if c in bundle && Hooked(r.infos, OnRemove, c) {
        RunsForRemoved(r.infos, bundle, s.before, e, c);
      }
    } else {
      NothingCounts(s, x, c);
    }
  }

  lemma DespawnIsAccounted(r: Registry, op: Op, s: Step, x: Entity, c: ComponentId)
    requires op.DespawnOp? && OpTyped(r, op) && Takes(op, r, s)
    ensures Accounted(r, op, s, x, c)
  {
    hide Hooked, NoDuplicates, Despawns;
    var e := op.entity;
    if e in s.before {
      var order :| Despawns(r.infos, e, order, s);
      DespawnCounts(r.infos, e, order, s, x, c);
    } else {
      NothingCounts(s, x, c);
    }
  }

  lemma NothingCounts(s: Step, x: Entity, c: ComponentId)
    requires Nothing(s)
    ensures multiset(s.fired)[Trigger(OnAdd, x, c)] == multiset(s.fired)[Trigger(OnInsert, x, c)] == 0
    ensures multiset(s.fired)[Trigger(OnRemove, x, c)] == 0
    ensures multiset(s.removed)[(c, x)] == 0
    ensures Has(s.after, x, c) <==> Has(s.before, x, c)
  {
    assert multiset(s.fired) == multiset{} && multiset(s.removed) == multiset{};
  }

  lemma NothingToRun(infos: seq<ComponentInfo>, bundle: seq<ComponentId>, before: Entities, e: Entity)
    requires e !in before
    ensures !RemoveHooksRun(infos, bundle, before, e)
  {
  }

  lemma TakingAll(bundle: seq<ComponentId>, before: Entities, e: Entity)
    ensures e in before ==>
              (ToSet(bundle) <= before[e].Keys <==> forall d :: d in bundle ==> Has(before, e, d))
    ensures e !in before && bundle != [] ==> !Has(before, e, bundle[0])
  {
    if e in before {
      assert forall d :: d in ToSet(bundle) <==> d in bundle;
      assert forall d :: Has(before, e, d) <==> d in before[e].Keys;
    }
  }

  lemma RunsForRemoved(infos: seq<ComponentInfo>, bundle: seq<ComponentId>, before: Entities, e: Entity,
                       c: ComponentId)
    requires Has(before, e, c) && c in bundle && Hooked(infos, OnRemove, c)
    ensures RemoveHooksRun(infos, bundle, before, e)
  {
    hide Hooked;
  }

  // ---- whole runs --------------------------------------------------------------------------

  function Arrivals(steps: seq<Step>, e: Entity, c: ComponentId): nat {
    if steps == [] then 0 else Arrivals(steps[..|steps| - 1], e, c) + Arrives(steps[|steps| - 1], e, c)
  }

  function Departures(steps: seq<Step>, e: Entity, c: ComponentId): nat {
    if steps == [] then 0 else Departures(steps[..|steps| - 1], e, c) + Departs(steps[|steps| - 1], e, c)
  }

  /** How often a run calls a hook. */
  ghost function CallsInRun(r: Registry, ops: seq<Op>, steps: seq<Step>, kind: TriggerKind, e: Entity, c: ComponentId)
    : nat
    requires AllTyped(r, ops) && |steps| == |ops|
  {
    if ops == [] then 0
    else
      var n := |ops| - 1;
      CallsInRun(r, ops[..n], steps[..n], kind, e, c) + Indicator(Calls(r, ops[n], steps[n], kind, e, c))
  }

  /** A run, and one more step from where it ended. */
  lemma RunSnoc(r: Registry, ops: seq<Op>, start: Entities, steps: seq<Step>, end: Entities, op: Op, step: Step)
    requires AllTyped(r, ops)
    requires Run(r, ops, start, steps, end)
    requires OpTyped(r, op) && Takes(op, r, step) && step.before == end
    ensures AllTyped(r, ops + [op])
    ensures Run(r, ops + [op], start, steps + [step], step.after)
    ensures AllFired(steps + [step]) == AllFired(steps) + step.fired
    ensures AllRemoved(steps + [step]) == AllRemoved(steps) + step.removed
  {
    hide Takes, OpTyped, StateAt;
    var n := |ops|;
    assert (steps + [step])[..n] == steps;
    assert step.after == StateAt(start, steps + [step], n + 1) by {
      StateAtSnoc(start, steps, step, n);
    }
    forall k | 0 <= k < n + 1
      ensures Takes((ops + [op])[k], r, (steps + [step])[k])
      ensures (steps + [step])[k].before == StateAt(start, steps + [step], k)
    {
      StateAtSnoc(start, steps, step, k);
      if k < n {
        assert steps[k].before == StateAt(start, steps, k);
      }
    }
  }

  lemma StateAtSnoc(start: Entities, steps: seq<Step>, step: Step, k: nat)
    requires k <= |steps|
    ensures StateAt(start, steps + [step], k) == StateAt(start, steps, k)
    ensures StateAt(start, steps + [step], |steps| + 1) == step.after
  {
  }

  lemma NoSteps(r: Registry, start: Entities)
    ensures Run(r, [], start, [], start)
  {
  }

  lemma EmptyRun(r: Registry, start: Entities, steps: seq<Step>, end: Entities)
    requires Run(r, [], start, steps, end)
    ensures steps == [] && end == start
  {
    assert |steps| == 0;
  }

  /** Every prefix of a run is a run. */
  lemma RunPrefix(r: Registry, ops: seq<Op>, start: Entities, steps: seq<Step>, end: Entities)
    requires ops != [] && AllTyped(r, ops)
    requires Run(r, ops, start, steps, end)
    ensures var n := |ops| - 1;
            && |steps| == n + 1
            && AllTyped(r, ops[..n]) && OpTyped(r, ops[n])
            && Run(r, ops[..n], start, steps[..n], steps[n].before)
            && Takes(ops[n], r, steps[n]) && end == steps[n].after
  {
    hide Takes, OpTyped;
    var n := |ops| - 1;
    forall k | 0 <= k < n
      ensures Takes(ops[..n][k], r, steps[..n][k])
      ensures steps[..n][k].before == StateAt(start, steps[..n], k)
    {
      assert ops[..n][k] == ops[k] && steps[..n][k] == steps[k];
    }
    assert steps[n].before == StateAt(start, steps, n);
  }

  /** Over any run, every hook fires exactly as often as the steps call it. */
  lemma {:induction false} HooksFireAsCalled(r: Registry, ops: seq<Op>, start: Entities, steps: seq<Step>,
                                             end: Entities, kind: TriggerKind, e: Entity, c: ComponentId)
    requires r.Wf() && AllTyped(r, ops)
    requires Run(r, ops, start, steps, end)
    ensures |steps| == |ops|
    ensures multiset(AllFired(steps))[Trigger(kind, e, c)] == CallsInRun(r, ops, steps, kind, e, c)
    decreases |ops|
  {
    hide Takes, Hooked, OpTyped, AllTyped, Registry.Wf, Run, Calls;
    if ops == [] {
      EmptyRun(r, start, steps, end);
    } else {
      var n := |ops| - 1;
      RunPrefix(r, ops, start, steps, end);
      HooksFireAsCalled(r, ops[..n], start, steps[..n], steps[n].before, kind, e, c);
      StepIsAccounted(r, ops[n], steps[n], e, c);
      assert multiset(AllFired(steps)) == multiset(AllFired(steps[..n])) + multiset(steps[n].fired);
      assert kind == OnAdd || kind == OnInsert || kind == OnRemove;
    }
  }

  /**
    Over any run, `on_add` fires for a component of an entity exactly as often as the component goes from
    absent to present, exactly one removal event is sent each time it goes away, and `on_remove` fires at
    least that often; and what arrived and never departed is what is there in the end.
   */
  lemma {:induction false} Conservation(r: Registry, ops: seq<Op>, start: Entities, steps: seq<Step>, end: Entities,
                                        e: Entity, c: ComponentId)
    requires r.Wf() && AllTyped(r, ops)
    requires Run(r, ops, start, steps, end)
    ensures multiset(AllFired(steps))[Trigger(OnAdd, e, c)]
            == if Hooked(r.infos, OnAdd, c) then Arrivals(steps, e, c) else 0
    ensures multiset(AllRemoved(steps))[(c, e)] == Departures(steps, e, c)
    ensures Hooked(r.infos, OnRemove, c) ==>
              multiset(AllFired(steps))[Trigger(OnRemove, e, c)] >= Departures(steps, e, c)
    ensures Indicator(Has(start, e, c)) + Arrivals(steps, e, c) == Departures(steps, e, c) + Indicator(Has(end, e, c))
    decreases |ops|
  {
    hide Takes, Hooked, OpTyped, AllTyped, Registry.Wf, Run, Calls;
    if ops == [] {
      EmptyRun(r, start, steps, end);
    } else {
      var n := |ops| - 1;
      RunPrefix(r, ops, start, steps, end);
      Conservation(r, ops[..n], start, steps[..n], steps[n].before, e, c);
      StepIsAccounted(r, ops[n], steps[n], e, c);
      DeparturesCall(r, ops[n], steps[n], e, c);
      assert multiset(AllFired(steps)) == multiset(AllFired(steps[..n])) + multiset(steps[n].fired);
      assert multiset(AllRemoved(steps)) == multiset(AllRemoved(steps[..n])) + multiset(steps[n].removed);
    }
  }

  /** `on_add` is called for what arrives, `on_remove` at least for what departs. */
  lemma DeparturesCall(r: Registry, op: Op, s: Step, e: Entity, c: ComponentId)
    requires r.Wf() && OpTyped(r, op) && Takes(op, r, s)
    ensures Calls(r, op, s, OnAdd, e, c) <==> Hooked(r.infos, OnAdd, c) && Arrives(s, e, c) == 1
    ensures Hooked(r.infos, OnRemove, c) && Departs(s, e, c) == 1 ==> Calls(r, op, s, OnRemove, e, c)
  {
    hide Hooked, Overwrite, InsertTriggers, NoDuplicates, RemoveHooksRun;
    if Hooked(r.infos, OnRemove, c) && Departs(s, e, c) == 1 {
      match op {
        case SpawnOp(b, values, tick) =>
        case InsertOp(x, b, values, tick) =>
          if x in s.before {
            OverwriteKeys(s.before[x], r.bundles[b], values, tick);
          }
        case RemoveOp(x, b) =>
          assert c in r.bundles[b];
          RunsForRemoved(r.infos, r.bundles[b], s.before, e, c);
        case TakeOp(x, b) =>
          TakingAll(r.bundles[b], s.before, e);
        case DespawnOp(x) =>
      }
    }
  }

  ghost predicate OnlyAdds(ops: seq<Op>) {
    forall k :: 0 <= k < |ops| ==> ops[k].SpawnOp? || ops[k].InsertOp?
  }

  lemma AddingRemovesNothing(r: Registry, op: Op, s: Step)
    requires OpTyped(r, op) && Takes(op, r, s)
    requires op.SpawnOp? || op.InsertOp?
    ensures s.removed == []
  {
  }

  lemma {:induction false} AddsRemoveNothing(r: Registry, ops: seq<Op>, start: Entities, steps: seq<Step>,
                                             end: Entities)
    requires AllTyped(r, ops)
    requires Run(r, ops, start, steps, end) && OnlyAdds(ops)
    ensures AllRemoved(steps) == []
    decreases |ops|
  {
    hide Takes, OpTyped, AllTyped, Run;
    if ops == [] {
      EmptyRun(r, start, steps, end);
    } else {
      var n := |ops| - 1;
      RunPrefix(r, ops, start, steps, end);
      AddsRemoveNothing(r, ops[..n], start, steps[..n], steps[n].before);
      AddingRemovesNothing(r, ops[n], steps[n]);
    }
  }

  /** Without removals `on_add` fires at most once, and exactly once if the component was new and stayed. */
  lemma AddedAtMostOnce(r: Registry, ops: seq<Op>, start: Entities, steps: seq<Step>, end: Entities, e: Entity,
                        c: ComponentId)
    requires r.Wf() && AllTyped(r, ops)
    requires Run(r, ops, start, steps, end) && OnlyAdds(ops)
    requires Hooked(r.infos, OnAdd, c)
    ensures multiset(AllFired(steps))[Trigger(OnAdd, e, c)] == Indicator(!Has(start, e, c) && Has(end, e, c))
    ensures Has(start, e, c) ==> Has(end, e, c)
  {
    Conservation(r, ops, start, steps, end, e, c);
    AddsRemoveNothing(r, ops, start, steps, end);
    assert multiset(AllRemoved(steps)) == multiset{};
    hide Run;
  }

  // ---- the order of hooks --------------------------------------------------------------------

  /** The hooks of one kind fire in bundle order. */
  lemma {:induction false} FiredInOrder(infos: seq<ComponentInfo>, kind: TriggerKind, e: Entity,
                                        targets: seq<ComponentId>, i: nat, j: nat)
    requires NoDuplicates(targets)
    requires i < j < |Fired(infos, kind, e, targets)|
    ensures exists p, q :: 0 <= p < q < |targets|
                           && Fired(infos, kind, e, targets)[i] == Trigger(kind, e, targets[p])
                           && Fired(infos, kind, e, targets)[j] == Trigger(kind, e, targets[q])
  {
    var n := |targets| - 1;
    var all, rest := Fired(infos, kind, e, targets), Fired(infos, kind, e, targets[..n]);
    if j < |rest| {
      FiredInOrder(infos, kind, e, targets[..n], i, j);
      var p, q :| 0 <= p < q < n
                  && rest[i] == Trigger(kind, e, targets[..n][p]) && rest[j] == Trigger(kind, e, targets[..n][q]);
      assert all[i] == Trigger(kind, e, targets[p]) && all[j] == Trigger(kind, e, targets[q]);
    } else {
      FiredNames(infos, kind, e, targets[..n], i);
      var p :| 0 <= p < n && rest[i] == Trigger(kind, e, targets[..n][p]);
      assert all[i] == Trigger(kind, e, targets[p]) && all[j] == Trigger(kind, e, targets[n]);
    }
  }

  lemma {:induction false} FiredNames(infos: seq<ComponentInfo>, kind: TriggerKind, e: Entity,
                                      targets: seq<ComponentId>, i: nat)
    requires i < |Fired(infos, kind, e, targets)|
    ensures exists p :: 0 <= p < |targets| && Fired(infos, kind, e, targets)[i] == Trigger(kind, e, targets[p])
  {
    var n := |targets| - 1;
    var rest := Fired(infos, kind, e, targets[..n]);
    if i < |rest| {
      FiredNames(infos, kind, e, targets[..n], i);
      var p :| 0 <= p < n && rest[i] == Trigger(kind, e, targets[..n][p]);
      assert Fired(infos, kind, e, targets)[i] == Trigger(kind, e, targets[p]);
    } else {
      assert Fired(infos, kind, e, targets)[i] == Trigger(kind, e, targets[n]);
    }
  }

  /** Within one insertion every `on_add` precedes every `on_insert`. */
  lemma AddsBeforeInserts(infos: seq<ComponentInfo>, e: Entity, bundle: seq<ComponentId>, here: set<ComponentId>,
                          i: nat, j: nat)
    requires i < j < |InsertTriggers(infos, e, bundle, here)|
    ensures var fired := InsertTriggers(infos, e, bundle, here);
            && fired[i].kind != OnRemove && fired[j].kind != OnRemove
            && (fired[i].kind == OnInsert ==> fired[j].kind == OnInsert)
  {
    var adds, inserts := Fired(infos, OnAdd, e, Without(bundle, here)), Fired(infos, OnInsert, e, bundle);
    if i < |adds| {
      FiredNames(infos, OnAdd, e, Without(bundle, here), i);
    } else {
      FiredNames(infos, OnInsert, e, bundle, i - |adds|);
    }
    if j < |adds| {
      FiredNames(infos, OnAdd, e, Without(bundle, here), j);
    } else {
      FiredNames(infos, OnInsert, e, bundle, j - |adds|);
    }
  }

  /** `c` stands before `d` in the list. */
  ghost predicate Before(xs: seq<ComponentId>, c: ComponentId, d: ComponentId) {
    exists p, q :: 0 <= p < q < |xs| && xs[p] == c && xs[q] == d
  }

  ghost predicate AddsFirst(bundle: seq<ComponentId>, t: Trigger, u: Trigger) {
    if t.kind == u.kind then Before(bundle, t.component, u.component) else t.kind == OnAdd && u.kind == OnInsert
  }

  /** What it takes for a step to call hook `t` before hook `u`. */
  ghost predicate InOrder(r: Registry, op: Op, s: Step, t: Trigger, u: Trigger)
    requires OpTyped(r, op)
  {
    match op
    case SpawnOp(b, _, _) => AddsFirst(r.bundles[b], t, u)
    case InsertOp(_, b, _, _) => AddsFirst(r.bundles[b], t, u)
    case RemoveOp(_, b) => Before(r.bundles[b], t.component, u.component)
    case TakeOp(_, b) => Before(r.bundles[b], t.component, u.component)
    case DespawnOp(_) =>
      exists p, q :: 0 <= p < q < |s.removed| && s.removed[p].0 == t.component && s.removed[q].0 == u.component
  }

  lemma FiredBefore(infos: seq<ComponentInfo>, kind: TriggerKind, e: Entity, targets: seq<ComponentId>, i: nat, j: nat)
    requires NoDuplicates(targets) && i < j < |Fired(infos, kind, e, targets)|
    ensures var fired := Fired(infos, kind, e, targets);
            fired[i].kind == fired[j].kind == kind && Before(targets, fired[i].component, fired[j].component)
  {
    FiredInOrder(infos, kind, e, targets, i, j);
    hide Fired;
    var p, q :| 0 <= p < q < |targets|
                && Fired(infos, kind, e, targets)[i] == Trigger(kind, e, targets[p])
                && Fired(infos, kind, e, targets)[j] == Trigger(kind, e, targets[q]);
  }

  lemma BeforeInTail(xs: seq<ComponentId>, c: ComponentId, d: ComponentId)
    requires xs != []
    ensures c == xs[0] && d in xs[1..] ==> Before(xs, c, d)
    ensures Before(xs[1..], c, d) ==> Before(xs, c, d)
  {
    if c == xs[0] && d in xs[1..] {
      var q :| 0 <= q < |xs[1..]| && xs[1..][q] == d;
      assert xs[0] == c && xs[q + 1] == d;
    }
    if Before(xs[1..], c, d) {
      var p, q :| 0 <= p < q < |xs[1..]| && xs[1..][p] == c && xs[1..][q] == d;
      assert xs[p + 1] == c && xs[q + 1] == d;
    }
  }

  /** A filtered list keeps the order. */
  lemma {:induction false} WithoutFrom(xs: seq<ComponentId>, here: set<ComponentId>, i: nat, j: nat)
    requires i < j < |Without(xs, here)|
    ensures Before(xs, Without(xs, here)[i], Without(xs, here)[j])
  {
    hide Before;
    var rest := Without(xs[1..], here);
    var n := if xs[0] in here then 0 else 1;
    assert Without(xs, here)[j] == rest[j - n];
    BeforeInTail(xs, Without(xs, here)[i], rest[j - n]);
    if i >= n {
      WithoutFrom(xs[1..], here, i - n, j - n);
      assert Without(xs, here)[i] == rest[i - n];
    }
  }

  lemma {:induction false} WithinFrom(xs: seq<ComponentId>, here: set<ComponentId>, i: nat, j: nat)
    requires i < j < |Within(xs, here)|
    ensures Before(xs, Within(xs, here)[i], Within(xs, here)[j])
  {
    var n := |xs| - 1;
    var rest := Within(xs[..n], here);
    if j < |rest| {
      WithinFrom(xs[..n], here, i, j);
      var p, q :| 0 <= p < q < n && xs[..n][p] == rest[i] && xs[..n][q] == rest[j];
      assert xs[p] == rest[i] && xs[q] == rest[j];
    } else {
      WithinMembers(xs[..n], here);
      assert rest[i] in ToSet(rest);
      assert rest[i] in xs[..n];
      var p :| 0 <= p < n && xs[..n][p] == rest[i];
      assert xs[p] == rest[i] && xs[n] == Within(xs, here)[j];
    }
  }

  lemma InsertTriggersInOrder(infos: seq<ComponentInfo>, e: Entity, bundle: seq<ComponentId>, here: set<ComponentId>,
                              i: nat, j: nat)
    requires NoDuplicates(bundle) && i < j < |InsertTriggers(infos, e, bundle, here)|
    ensures AddsFirst(bundle, InsertTriggers(infos, e, bundle, here)[i], InsertTriggers(infos, e, bundle, here)[j])
  {
    var targets := Without(bundle, here);
    WithoutMembers(bundle, here);
    hide Without, Fired, NoDuplicates;
    var adds, inserts := Fired(infos, OnAdd, e, targets), Fired(infos, OnInsert, e, bundle);
    if j < |adds| {
      FiredBefore(infos, OnAdd, e, targets, i, j);
      var p, q :| 0 <= p < q < |targets| && targets[p] == adds[i].component && targets[q] == adds[j].component;
      WithoutFrom(bundle, here, p, q);
    } else if i < |adds| {
      FiredNames(infos, OnAdd, e, targets, i);
      FiredNames(infos, OnInsert, e, bundle, j - |adds|);
    } else {
      FiredBefore(infos, OnInsert, e, bundle, i - |adds|, j - |adds|);
    }
  }

  /**
    The hooks of a step are called in bundle order, all `on_add` before all `on_insert`; those of a despawn in the
    order in which its removal events are sent.
   */
  lemma HooksInOrder(r: Registry, op: Op, s: Step, i: nat, j: nat)
    requires r.Wf() && OpTyped(r, op) && Takes(op, r, s) && i < j < |s.fired|
    ensures InOrder(r, op, s, s.fired[i], s.fired[j])
  {
    hide Overwrite, InsertTriggers, Fired, Before, NoDuplicates, AddsFirst;
    match op {
      case SpawnOp(b, values, tick) =>
        var e :| Spawns(r.infos, r.bundles[b], values, tick, e, s);
        InsertTriggersInOrder(r.infos, e, r.bundles[b], {}, i, j);
      case InsertOp(e, b, values, tick) =>
        InsertTriggersInOrder(r.infos, e, r.bundles[b], s.before[e].Keys, i, j);
      case RemoveOp(e, b) =>
        FiredBefore(r.infos, OnRemove, e, r.bundles[b], i, j);
      case TakeOp(e, b) =>
        FiredBefore(r.infos, OnRemove, e, r.bundles[b], i, j);
      case DespawnOp(e) =>
        var order :| Despawns(r.infos, e, order, s);
        FiredBefore(r.infos, OnRemove, e, order, i, j);
        DespawnEventsFollow(order, e, s.removed, s.fired[i].component, s.fired[j].component);
    }
  }

  lemma DespawnEventsFollow(order: seq<ComponentId>, e: Entity, removed: seq<(ComponentId, Entity)>, c: ComponentId,
                            d: ComponentId)
    requires Before(order, c, d) && removed == RemovedEvents(e, order)
    ensures exists p, q :: 0 <= p < q < |removed| && removed[p].0 == c && removed[q].0 == d
  {
    var p, q :| 0 <= p < q < |order| && order[p] == c && order[q] == d;
    assert removed[p].0 == c && removed[q].0 == d;
  }

  /** The removal events of a bundle are sent in bundle order. */
  lemma EventsInOrder(r: Registry, op: Op, s: Step, i: nat, j: nat)
    requires OpTyped(r, op) && Takes(op, r, s) && (op.RemoveOp? || op.TakeOp?) && i < j < |s.removed|
    ensures Before(r.bundles[op.bundle], s.removed[i].0, s.removed[j].0)
  {
    hide Within, Before, RemoveTriggers;
    WithinFrom(r.bundles[op.bundle], s.before[op.entity].Keys, i, j);
  }
}
