/** Component hooks: which ones fire, in which order, and when the archetype flags may skip them. */
module Triggers {
  import opened Collections
  import opened Storage
  import opened Locations
  import opened Stores

  datatype TriggerKind = OnAdd | OnInsert | OnRemove

  datatype Trigger = Trigger(kind: TriggerKind, entity: Entity, component: ComponentId)

  function Flag(flags: Flags, kind: TriggerKind): bool {
    match kind
    case OnAdd => flags.onAdd
    case OnInsert => flags.onInsert
    case OnRemove => flags.onRemove
  }

  /** The hooks of `targets`, in order. */
  function Fired(infos: seq<ComponentInfo>, kind: TriggerKind, e: Entity, targets: seq<ComponentId>): seq<Trigger> {
    if targets == [] then []
    else
      var n := |targets| - 1;
      var c := targets[n];
      Fired(infos, kind, e, targets[..n])
      + if c < |infos| && Flag(infos[c].hooks, kind) then [Trigger(kind, e, c)] else []
  }

  /** Component `c` has a hook of this kind. */
  ghost predicate Hooked(infos: seq<ComponentInfo>, kind: TriggerKind, c: ComponentId) {
    && c < |infos|
    && (kind.OnAdd? ==> infos[c].hooks.onAdd)
    && (kind.OnInsert? ==> infos[c].hooks.onInsert)
    && (kind.OnRemove? ==> infos[c].hooks.onRemove)
  }

  lemma HookedIsFlag(infos: seq<ComponentInfo>, kind: TriggerKind, c: ComponentId)
    ensures Hooked(infos, kind, c) <==> c < |infos| && Flag(infos[c].hooks, kind)
  {
  }

  lemma FiredSnoc(infos: seq<ComponentInfo>, kind: TriggerKind, e: Entity, targets: seq<ComponentId>, c: ComponentId)
    ensures Fired(infos, kind, e, targets + [c])
            == Fired(infos, kind, e, targets)
               + if Hooked(infos, kind, c) then [Trigger(kind, e, c)] else []
  {
    assert (targets + [c])[..|targets|] == targets;
  }

  lemma {:induction false} FiredOnlyForHooked(infos: seq<ComponentInfo>, kind: TriggerKind, e: Entity,
                                              targets: seq<ComponentId>)
    ensures Fired(infos, kind, e, targets) == [] <==> forall c :: c in targets ==> !Hooked(infos, kind, c)
  {
    if targets != [] {
      var n := |targets| - 1;
      FiredOnlyForHooked(infos, kind, e, targets[..n]);
      assert targets == targets[..n] + [targets[n]];
      assert forall c :: c in targets <==> c in targets[..n] || c == targets[n];
      FiredSnoc(infos, kind, e, targets[..n], targets[n]);
      var init := Fired(infos, kind, e, targets[..n]);
      assert |Fired(infos, kind, e, targets)| == |init| + if Hooked(infos, kind, targets[n]) then 1 else 0;
      assert init == [] <==> |init| == 0;
    }
  }

  /** The early-out on the archetype flag skips no hook of a component the archetype has. */
  lemma FlagSkipsNothing(infos: seq<ComponentInfo>, a: Archetype, kind: TriggerKind, e: Entity,
                         targets: seq<ComponentId>)
    requires ComponentsRegistered(infos, a) && FlagsExact(infos, a)
    requires ToSet(targets) <= a.ComponentSet()
    ensures !Flag(a.flags, kind) ==> Fired(infos, kind, e, targets) == []
  {
    FiredOnlyForHooked(infos, kind, e, targets);
    if !Flag(a.flags, kind) {
      forall c | c in targets
        ensures !Hooked(infos, kind, c)
      {
        assert c in ToSet(targets);
        var k :| 0 <= k < |a.components| && a.components[k].id == c;
        assert kind == OnAdd ==> !infos[a.components[k].id].hooks.onAdd;
        assert kind == OnInsert ==> !infos[a.components[k].id].hooks.onInsert;
        assert kind == OnRemove ==> !infos[a.components[k].id].hooks.onRemove;
      }
    }
  }

  /** The components of `targets` in `here`, in order. */
  function Within(targets: seq<ComponentId>, here: set<ComponentId>): seq<ComponentId> {
    if targets == [] then []
    else
      var n := |targets| - 1;
      Within(targets[..n], here) + if targets[n] in here then [targets[n]] else []
  }

  lemma {:induction false} WithinMembers(targets: seq<ComponentId>, here: set<ComponentId>)
    ensures ToSet(Within(targets, here)) == ToSet(targets) * here
  {
    if targets != [] {
      var n := |targets| - 1;
      WithinMembers(targets[..n], here);
      assert targets == targets[..n] + [targets[n]];
      var rest := Within(targets[..n], here);
      assert forall c :: c in rest <==> c in ToSet(rest);
      assert forall c :: c in targets[..n] <==> c in ToSet(targets[..n]);
    }
  }

  lemma {:induction false} WithinNothing(targets: seq<ComponentId>, here: set<ComponentId>)
    requires ToSet(targets) !! here
    ensures Within(targets, here) == []
  {
    if targets != [] {
      var n := |targets| - 1;
      assert targets[n] in ToSet(targets);
      assert ToSet(targets[..n]) <= ToSet(targets);
      WithinNothing(targets[..n], here);
    }
  }

  lemma {:induction false} FiredWithin(infos: seq<ComponentInfo>, kind: TriggerKind, e: Entity,
                                       targets: seq<ComponentId>, here: set<ComponentId>)
    ensures |Fired(infos, kind, e, Within(targets, here))| <= |Fired(infos, kind, e, targets)|
    ensures Fired(infos, kind, e, Within(targets, here)) == Fired(infos, kind, e, targets)
            <==> forall c :: c in targets && Hooked(infos, kind, c) ==> c in here
  {
    if targets != [] {
      var n := |targets| - 1;
      var c := targets[n];
      FiredWithin(infos, kind, e, targets[..n], here);
      assert targets == targets[..n] + [c];
      assert forall d :: d in targets <==> d in targets[..n] || d == c;
      var kept := Within(targets[..n], here);
      FiredSnoc(infos, kind, e, kept, c);
      FiredSnoc(infos, kind, e, targets[..n], c);
      assert Within(targets, here) == if c in here then kept + [c] else kept;
      var x, y := Fired(infos, kind, e, kept), Fired(infos, kind, e, targets[..n]);
      SameLastSameInit(x, y, Trigger(kind, e, c));
      var x', y' := Fired(infos, kind, e, Within(targets, here)), Fired(infos, kind, e, targets);
      if Hooked(infos, kind, c) {
        assert y' == y + [Trigger(kind, e, c)];
        assert c in here ==> x' == x + [Trigger(kind, e, c)];
        assert c !in here ==> x' == x && |x'| < |y'|;
      } else {
        assert y' == y + [] && y + [] == y;
        assert x + [] == x && x' == x;
      }
    }
  }

  lemma SameLastSameInit<T>(x: seq<T>, y: seq<T>, z: T)
    ensures x + [z] == y + [z] <==> x == y
  {
    assert (x + [z])[..|x|] == x && (y + [z])[..|y|] == y;
    if x + [z] == y + [z] {
      assert |x + [z]| == |y + [z]|;
    }
  }

  /** Some component of `here` has a hook of this kind; this is what an archetype flag caches. */
  ghost predicate AnyHooked(infos: seq<ComponentInfo>, kind: TriggerKind, here: set<ComponentId>) {
    exists c :: c in here && Hooked(infos, kind, c)
  }

  lemma FlagIsAnyHooked(infos: seq<ComponentInfo>, a: Archetype, kind: TriggerKind)
    requires ComponentsRegistered(infos, a) && FlagsExact(infos, a)
    ensures Flag(a.flags, kind) <==> AnyHooked(infos, kind, a.ComponentSet())
  {
    if Flag(a.flags, kind) {
      var k :| 0 <= k < |a.components| && Flag(infos[a.components[k].id].hooks, kind);
      HookedIsFlag(infos, kind, a.components[k].id);
      assert a.components[k].id in a.ComponentSet() && Hooked(infos, kind, a.components[k].id);
    }
    if c :| c in a.ComponentSet() && Hooked(infos, kind, c) {
      var k :| 0 <= k < |a.components| && a.components[k].id == c;
      assert Flag(infos[a.components[k].id].hooks, kind);
    }
  }

  /**
    The `on_remove` hooks of a removal from an entity with the components `here`. The whole bundle is
    handed to `trigger_on_remove`, which is not told which of its components the entity has.
   */
  ghost function RemoveTriggers(infos: seq<ComponentInfo>, e: Entity, bundle: seq<ComponentId>,
                                here: set<ComponentId>): seq<Trigger>
  {
    if ToSet(bundle) !! here || !AnyHooked(infos, OnRemove, here) then [] else Fired(infos, OnRemove, e, bundle)
  }

  /**
    Removing a bundle fires `on_remove` for exactly the components that go away if and only if nothing
    goes away, or the entity has no component with such a hook, or it has every hooked component of the bundle.
   */
  lemma RemoveTriggersExactIff(infos: seq<ComponentInfo>, e: Entity, bundle: seq<ComponentId>, here: set<ComponentId>)
    ensures RemoveTriggers(infos, e, bundle, here) == Fired(infos, OnRemove, e, Within(bundle, here))
            <==> || ToSet(bundle) !! here
                 || !AnyHooked(infos, OnRemove, here)
                 || forall c :: c in bundle && Hooked(infos, OnRemove, c) ==> c in here
  {
    FiredWithin(infos, OnRemove, e, bundle, here);
    WithinMembers(bundle, here);
    FiredOnlyForHooked(infos, OnRemove, e, Within(bundle, here));
    assert forall c :: c in Within(bundle, here) <==> c in ToSet(Within(bundle, here));
  }

  /** An entity that has component 0 but not component 1 sees `on_remove` of component 1 when both are removed. */
  lemma RemoveFiresForAbsentComponent()
    ensures var hooks := Flags(false, false, true);
            var infos := [ComponentInfo(InTable, hooks), ComponentInfo(InTable, hooks)];
            var e := Entity(0, 1);
            Trigger(OnRemove, e, 1) in RemoveTriggers(infos, e, [0, 1], {0})
  {
    var hooks := Flags(false, false, true);
    var infos := [ComponentInfo(InTable, hooks), ComponentInfo(InTable, hooks)];
    var e := Entity(0, 1);
    var bundle: seq<ComponentId> := [0, 1];
    assert bundle[0] in ToSet(bundle) && Hooked(infos, OnRemove, 0);
    assert Fired(infos, OnRemove, e, bundle) == Fired(infos, OnRemove, e, bundle[..1]) + [Trigger(OnRemove, e, 1)];
  }
}
