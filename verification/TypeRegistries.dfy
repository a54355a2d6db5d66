/**
  The type registry: `register` walks the dependencies of a type depth first, and every registration is
  indexed under its short name, which may turn out to be ambiguous. The types of a program and what they
  depend on are fixed at compile time; they are the constant `types` here and may depend on each other
  in cycles.
 */
module TypeRegistries {
  import opened Collections

  type TypeId = nat

  /** `data` is the type data that the derived registration of the type carries. */
  datatype TypeDecl = TypeDecl(shortPath: string, typePath: string, data: int, dependencies: seq<TypeId>)

  /** A registration carries type data besides the type it describes. */
  datatype Registration = Registration(typeId: TypeId, data: int)

  type Types = map<TypeId, TypeDecl>

  ghost predicate WellTyped(types: Types) {
    forall id, k :: id in types && 0 <= k < |types[id].dependencies| ==> types[id].dependencies[k] in types
  }

  // ---- reachability ------------------------------------------------------------------------

  ghost predicate Path(types: Types, p: seq<TypeId>) {
    && |p| > 0
    && (forall k :: 0 <= k < |p| ==> p[k] in types)
    && (forall k :: 0 <= k < |p| - 1 ==> p[k + 1] in types[p[k]].dependencies)
  }

  ghost predicate Connects(types: Types, p: seq<TypeId>, a: TypeId, b: TypeId) {
    Path(types, p) && p[0] == a && p[|p| - 1] == b
  }

  ghost predicate Reaches(types: Types, a: TypeId, b: TypeId) {
    exists p :: Connects(types, p, a, b)
  }

  ghost predicate Closed(types: Types, ids: set<TypeId>) {
    forall id, d :: id in ids && id in types && d in types[id].dependencies ==> d in ids
  }

  /** What `after` has beyond `before` brings its dependencies along, and is reached from `id`. */
  ghost predicate Brings(types: Types, id: TypeId, before: set<TypeId>, after: set<TypeId>) {
    && before <= after
    && (forall t, d :: t in after && t !in before && t in types && d in types[t].dependencies ==> d in after)
    && (forall t :: t in after && t !in before ==> Reaches(types, id, t))
  }

  lemma BringsMore(types: Types, id: TypeId, d: TypeId, start: set<TypeId>, before: set<TypeId>, after: set<TypeId>)
    requires id in types && d in types[id].dependencies
    requires Brings(types, id, start, before) && Brings(types, d, before, after)
    ensures Brings(types, id, start, after)
  {
    forall t | t in after && t !in before
      ensures Reaches(types, id, t)
    {
      ReachesThrough(types, id, d, t);
    }
    hide Reaches;
  }

  /** The new root itself and then all of its dependencies. */
  lemma BringsItself(types: Types, id: TypeId, old_: set<TypeId>, after: set<TypeId>)
    requires id in types && Brings(types, id, old_ + {id}, after)
    requires forall d :: d in types[id].dependencies ==> d in after
    ensures Brings(types, id, old_, after)
  {
    ReachesItself(types, id);
    hide Reaches;
  }

  lemma BringsKeepsClosed(types: Types, id: TypeId, before: set<TypeId>, after: set<TypeId>)
    requires Closed(types, before) && Brings(types, id, before, after)
    ensures Closed(types, after)
  {
    hide Reaches;
  }

  lemma ReachesItself(types: Types, a: TypeId)
    requires a in types
    ensures Reaches(types, a, a)
  {
    assert Connects(types, [a], a, a);
  }

  lemma ReachesThrough(types: Types, a: TypeId, d: TypeId, b: TypeId)
    requires a in types && d in types[a].dependencies && Reaches(types, d, b)
    ensures Reaches(types, a, b)
  {
    var p :| Connects(types, p, d, b);
    var q := [a] + p;
    forall k | 0 <= k < |q| - 1
      ensures q[k + 1] in types[q[k]].dependencies
    {
      if k > 0 {
        assert q[k] == p[k - 1] && q[k + 1] == p[k];
      }
    }
    assert Connects(types, q, a, b);
  }

  /** A closed set contains what its members reach. */
  lemma {:induction false} ClosedContainsPath(types: Types, ids: set<TypeId>, p: seq<TypeId>)
    requires Closed(types, ids) && Path(types, p) && p[0] in ids
    ensures p[|p| - 1] in ids
    decreases |p|
  {
    if |p| > 1 {
      assert p[1] in types[p[0]].dependencies;
      ClosedContainsPath(types, ids, p[1..]);
    }
  }

  /** `ids` is exactly what the roots reach. */
  ghost predicate IsReach(types: Types, roots: set<TypeId>, ids: set<TypeId>) {
    forall id :: id in ids <==> ReachedFrom(types, roots, id)
  }

  ghost predicate ReachedFrom(types: Types, roots: set<TypeId>, id: TypeId) {
    exists root :: root in roots && Reaches(types, root, id)
  }

  lemma NothingBrought(types: Types, id: TypeId, ids: set<TypeId>)
    ensures Brings(types, id, ids, ids)
  {
  }

  lemma NothingIsClosed(types: Types)
    ensures Closed(types, {})
  {
  }

  ghost predicate AllReached(types: Types, roots: set<TypeId>, ids: set<TypeId>) {
    forall t :: t in ids ==> ReachedFrom(types, roots, t)
  }

  lemma NoRoots(types: Types, roots: set<TypeId>)
    ensures AllReached(types, roots, {})
  {
  }

  lemma BroughtIsReached(types: Types, roots: set<TypeId>, root: TypeId, before: set<TypeId>, after: set<TypeId>)
    requires root in roots && Brings(types, root, before, after)
    requires AllReached(types, roots, before)
    ensures AllReached(types, roots, after) && before <= after
  {
    forall t | t in after && t !in before
      ensures ReachedFrom(types, roots, t)
    {
      assert Reaches(types, root, t);
    }
    hide Reaches;
  }

  // ---- short names -------------------------------------------------------------------------

  /** How often a type with this short name has been indexed. */
  function Count(types: Types, indexed: seq<TypeId>, name: string): nat {
    if indexed == [] then 0
    else
      var n := |indexed| - 1;
      Count(types, indexed[..n], name)
      + if indexed[n] in types && types[indexed[n]].shortPath == name then 1 else 0
  }

  function Named(types: Types, ids: set<TypeId>, name: string): set<TypeId> {
    set id | id in ids && id in types && types[id].shortPath == name
  }

  lemma CountSnoc(types: Types, indexed: seq<TypeId>, id: TypeId, name: string)
    requires id in types
    ensures Count(types, indexed + [id], name)
            == Count(types, indexed, name) + if types[id].shortPath == name then 1 else 0
  {
    assert (indexed + [id])[..|indexed|] == indexed;
  }

  /** Without repetitions, counting how often a name was indexed is counting the types that have it. */
  lemma {:induction false} CountIsCardinality(types: Types, indexed: seq<TypeId>, name: string)
    requires NoDuplicates(indexed)
    ensures Count(types, indexed, name) == |Named(types, ToSet(indexed), name)|
  {
    if indexed == [] {
      assert Named(types, ToSet(indexed), name) == {};
    } else {
      var n := |indexed| - 1;
      var id := indexed[n];
      CountIsCardinality(types, indexed[..n], name);
      assert ToSet(indexed) == ToSet(indexed[..n]) + {id} by {
        assert indexed == indexed[..n] + [id];
      }
      assert id !in ToSet(indexed[..n]);
      NamedGrows(types, ToSet(indexed[..n]), id, name);
    }
  }

  lemma NamedGrows(types: Types, ids: set<TypeId>, id: TypeId, name: string)
    requires id !in ids
    ensures var named := id in types && types[id].shortPath == name;
            |Named(types, ids + {id}, name)| == |Named(types, ids, name)| + if named then 1 else 0
  {
    assert Named(types, ids + {id}, name)
           == Named(types, ids, name) + if id in types && types[id].shortPath == name then {id} else {};
  }

  lemma {:induction false} CountedIsNamed(types: Types, indexed: seq<TypeId>, name: string)
    ensures Count(types, indexed, name) > 0 <==> Named(types, ToSet(indexed), name) != {}
  {
    if indexed != [] {
      var n := |indexed| - 1;
      CountedIsNamed(types, indexed[..n], name);
      assert indexed == indexed[..n] + [indexed[n]];
      assert Named(types, ToSet(indexed), name)
          == Named(types, ToSet(indexed[..n]), name) + Named(types, {indexed[n]}, name);
      if indexed[n] in types && types[indexed[n]].shortPath == name {
        assert indexed[n] in Named(types, {indexed[n]}, name);
      } else {
        assert Named(types, {indexed[n]}, name) == {};
      }
    }
  }

  /** The name maps to an id iff it was indexed once, and is ambiguous iff it was indexed more often. */
  ghost predicate NameExact(types: Types, indexed: seq<TypeId>, shortPathToId: map<string, TypeId>,
                            ambiguous: set<string>, name: string)
  {
    && (name in ambiguous <==> Count(types, indexed, name) >= 2)
    && (name in shortPathToId <==> Count(types, indexed, name) == 1)
    && (name in shortPathToId ==> shortPathToId[name] in Named(types, ToSet(indexed), name))
  }

  /** No registration has been dropped or changed. */
  ghost predicate KeepsRegistrations(before: map<TypeId, Registration>, after: map<TypeId, Registration>) {
    forall t :: t in before ==> t in after && after[t] == before[t]
  }

  lemma KeepsIsReflexive(a: map<TypeId, Registration>)
    ensures KeepsRegistrations(a, a)
  {
  }

  lemma KeepsIsTransitive(a: map<TypeId, Registration>, b: map<TypeId, Registration>, c: map<TypeId, Registration>)
    requires KeepsRegistrations(a, b) && KeepsRegistrations(b, c)
    ensures KeepsRegistrations(a, c)
  {
  }

  lemma KeepsKeys(a: map<TypeId, Registration>, b: map<TypeId, Registration>)
    requires KeepsRegistrations(a, b)
    ensures a.Keys <= b.Keys
  {
  }

  lemma KeepsExtended(a: map<TypeId, Registration>, r: Registration, b: map<TypeId, Registration>)
    requires r.typeId !in a && KeepsRegistrations(a[r.typeId := r], b)
    ensures KeepsRegistrations(a, b) && r.typeId in b
  {
    forall t | t in a
      ensures t in b && b[t] == a[t]
    {
      assert t in a[r.typeId := r];
    }
  }

  /** What is new in `after` is what `get_type_registration` of the type gives. */
  ghost predicate Derived(types: Types, before: map<TypeId, Registration>, after: map<TypeId, Registration>) {
    forall t :: t in after && t !in before ==> t in types && after[t] == Registration(t, types[t].data)
  }

  lemma NothingDerived(types: Types, a: map<TypeId, Registration>)
    ensures Derived(types, a, a)
  {
  }

  lemma DerivedIsTransitive(types: Types, a: map<TypeId, Registration>, b: map<TypeId, Registration>,
                            c: map<TypeId, Registration>)
    requires Derived(types, a, b) && Derived(types, b, c) && KeepsRegistrations(b, c)
    ensures Derived(types, a, c)
  {
  }

  lemma DerivedExtended(types: Types, a: map<TypeId, Registration>, id: TypeId, b: map<TypeId, Registration>)
    requires id in types && id !in a
    requires var r := Registration(id, types[id].data);
             Derived(types, a[id := r], b) && KeepsRegistrations(a[id := r], b)
    ensures Derived(types, a, b)
  {
    assert id in a[id := Registration(id, types[id].data)];
  }

  class TypeRegistry {
    const types: Types
    var registrations: map<TypeId, Registration>
    var shortPathToId: map<string, TypeId>
    var typePathToId: map<string, TypeId>
    var ambiguousNames: set<string>
    /** The types handed to `update_registration_indices`, in order. */
    ghost var indexed: seq<TypeId>

    ghost predicate Valid()
      reads this
    {
      && WellTyped(types)
      && registrations.Keys <= types.Keys
      && (forall id :: id in registrations ==> registrations[id].typeId == id)
      && ToSet(indexed) == registrations.Keys
      && (forall name :: NameExact(types, indexed, shortPathToId, ambiguousNames, name))
      && (forall path :: path in typePathToId ==>
            typePathToId[path] in registrations && types[typePathToId[path]].typePath == path)
      && (forall id :: id in registrations ==> types[id].typePath in typePathToId)
    }

    constructor (types: Types)
      requires WellTyped(types)
      ensures Valid() && this.types == types && registrations == map[] && indexed == []
    {
      this.types := types;
      registrations, shortPathToId, typePathToId := map[], map[], map[];
      ambiguousNames, indexed := {}, [];
    }

    /** `update_registration_indices`. */
    method UpdateIndices(id: TypeId)
      requires id in types
      requires forall name :: NameExact(types, indexed, shortPathToId, ambiguousNames, name)
      modifies this`shortPathToId, this`typePathToId, this`ambiguousNames, this`indexed
      ensures forall name :: NameExact(types, indexed, shortPathToId, ambiguousNames, name)
      ensures typePathToId == old(typePathToId)[types[id].typePath := id]
      ensures indexed == old(indexed) + [id]
    {
      ghost var before, shortBefore, ambiguousBefore := indexed, shortPathToId, ambiguousNames;
      var shortName := types[id].shortPath;
      assert NameExact(types, indexed, shortPathToId, ambiguousNames, shortName);
      if shortName in shortPathToId || shortName in ambiguousNames {
        shortPathToId := shortPathToId - {shortName};
        ambiguousNames := ambiguousNames + {shortName};
      } else {
        shortPathToId := shortPathToId[shortName := id];
      }
      indexed := indexed + [id];
      typePathToId := typePathToId[types[id].typePath := id];
      forall name
        ensures NameExact(types, indexed, shortPathToId, ambiguousNames, name)
      {
        assert NameExact(types, before, shortBefore, ambiguousBefore, name);
        CountSnoc(types, before, id, name);
      }
    }

    /** `register_internal`. */
    method RegisterInternal(registration: Registration) returns (added: bool)
      requires Valid() && registration.typeId in types
      modifies this
      ensures Valid()
      ensures added <==> registration.typeId !in old(registrations)
      ensures registrations
              == if added then old(registrations)[registration.typeId := registration] else old(registrations)
      ensures indexed == old(indexed) + if added then [registration.typeId] else []
      ensures old(NoDuplicates(indexed)) ==> NoDuplicates(indexed)
    {
      if registration.typeId in registrations {
        return false;
      }
      assert registration.typeId !in ToSet(indexed);
      UpdateIndices(registration.typeId);
      registrations := registrations[registration.typeId := registration];
      added := true;
    }

    /** `add_registration`: dependencies are not registered. */
    method AddRegistration(registration: Registration) returns (added: bool)
      requires Valid() && registration.typeId in types
      modifies this
      ensures Valid()
      ensures added <==> registration.typeId !in old(registrations)
      ensures registrations
              == if added then old(registrations)[registration.typeId := registration] else old(registrations)
      ensures old(NoDuplicates(indexed)) ==> NoDuplicates(indexed)
    {
      added := RegisterInternal(registration);
    }

    /** `overwrite_registration`: indexes the type again even if it was registered before. */
    method OverwriteRegistration(registration: Registration)
      requires Valid() && registration.typeId in types
      modifies this
      ensures Valid()
      ensures registrations == old(registrations)[registration.typeId := registration]
      ensures indexed == old(indexed) + [registration.typeId]
    {
      UpdateIndices(registration.typeId);
      registrations := registrations[registration.typeId := registration];
    }

    /** `register::<T>`, with the `register_type_dependencies` of a type that registers what it contains. */
    method Register(id: TypeId)
      requires Valid() && id in types
      modifies this
      ensures Valid()
      ensures id in registrations
      ensures KeepsRegistrations(old(registrations), registrations)
      ensures Derived(types, old(registrations), registrations)
      ensures Brings(types, id, old(registrations.Keys), registrations.Keys)
      ensures id in old(registrations) ==> registrations == old(registrations) && indexed == old(indexed)
      ensures old(NoDuplicates(indexed)) ==> NoDuplicates(indexed)
      decreases types.Keys - registrations.Keys, 1
    {
      hide NameExact, NoDuplicates, Brings, KeepsRegistrations, Derived;
      NothingBrought(types, id, registrations.Keys);
      NothingDerived(types, registrations);
      KeepsIsReflexive(registrations);
      var added := RegisterInternal(Registration(id, types[id].data));
      if added {
        assert registrations.Keys == old(registrations.Keys) + {id};
        RegisterDependencies(id);
        KeepsExtended(old(registrations), Registration(id, types[id].data), registrations);
        DerivedExtended(types, old(registrations), id, registrations);
        BringsItself(types, id, old(registrations.Keys), registrations.Keys);
      }
    }

    lemma DependenciesAreTypes(id: TypeId)
      requires Valid() && id in types
      ensures forall k :: 0 <= k < |types[id].dependencies| ==> types[id].dependencies[k] in types
      ensures registrations.Keys <= types.Keys
    {
      hide NameExact;
    }

    /** `register_type_dependencies` of a type that has just been registered. */
    method RegisterDependencies(id: TypeId)
      requires Valid() && id in registrations && id in types
      modifies this
      ensures Valid()
      ensures KeepsRegistrations(old(registrations), registrations)
      ensures Derived(types, old(registrations), registrations)
      ensures forall d :: d in types[id].dependencies ==> d in registrations
      ensures Brings(types, id, old(registrations.Keys), registrations.Keys)
      ensures old(NoDuplicates(indexed)) ==> NoDuplicates(indexed)
      decreases types.Keys - registrations.Keys, 2
    {
      hide TypeRegistry.Valid, NoDuplicates, Brings, KeepsRegistrations, Derived;
      var dependencies := types[id].dependencies;
      DependenciesAreTypes(id);
      ghost var start := registrations;
      NothingBrought(types, id, start.Keys);
      KeepsIsReflexive(start);
      NothingDerived(types, start);
      for k := 0 to |dependencies|
        invariant Valid()
        invariant KeepsRegistrations(start, registrations) && Derived(types, start, registrations)
        invariant forall j :: 0 <= j < k ==> dependencies[j] in registrations
        invariant Brings(types, id, start.Keys, registrations.Keys)
        invariant old(NoDuplicates(indexed)) ==> NoDuplicates(indexed)
      {
        ghost var before := registrations;
        KeepsKeys(start, before);
        Register(dependencies[k]);
        KeepsIsTransitive(start, before, registrations);
        DerivedIsTransitive(types, start, before, registrations);
        KeepsKeys(before, registrations);
        BringsMore(types, id, dependencies[k], start.Keys, before.Keys, registrations.Keys);
      }
    }

    lemma NothingIndexed()
      requires Valid() && registrations == map[]
      ensures indexed == [] && NoDuplicates(indexed) && registrations.Keys == {}
    {
      hide NameExact;
      EmptyImage(indexed);
    }

    /** A run of registrations on an empty registry registers exactly what the roots reach. */
    method RegisterAll(roots: seq<TypeId>)
      requires Valid() && registrations == map[]
      requires forall k :: 0 <= k < |roots| ==> roots[k] in types
      modifies this
      ensures Valid()
      ensures Closed(types, registrations.Keys) && IsReach(types, ToSet(roots), registrations.Keys)
      ensures Derived(types, map[], registrations) && NoDuplicates(indexed)
    {
      hide TypeRegistry.Valid, NoDuplicates, ToSet, Brings, Closed, AllReached, KeepsRegistrations, IsReach, Derived;
      NothingIndexed();
      InToSet(roots);
      NothingIsClosed(types);
      NoRoots(types, ToSet(roots));
      ghost var start := registrations;
      NothingDerived(types, start);
      for k := 0 to |roots|
        invariant Valid()
        invariant Closed(types, registrations.Keys) && AllReached(types, ToSet(roots), registrations.Keys)
        invariant Derived(types, start, registrations) && NoDuplicates(indexed)
        invariant forall j :: 0 <= j < k ==> roots[j] in registrations
      {
        ghost var before := registrations;
        Register(roots[k]);
        DerivedIsTransitive(types, start, before, registrations);
        BringsKeepsClosed(types, roots[k], before.Keys, registrations.Keys);
        BroughtIsReached(types, ToSet(roots), roots[k], before.Keys, registrations.Keys);
      }
      AllIn(roots, registrations.Keys);
      ReachIsContained(types, ToSet(roots), registrations.Keys);
    }

    /** `get_with_short_type_path`. */
    function GetWithShortTypePath(name: string): Option<Registration>
      reads this
    {
      if name in shortPathToId && shortPathToId[name] in registrations
      then Some(registrations[shortPathToId[name]])
      else None
    }

    /** `is_ambiguous`. */
    predicate IsAmbiguous(name: string)
      reads this
    {
      name in ambiguousNames
    }
  }

  lemma AllIn(ids: seq<TypeId>, all: set<TypeId>)
    requires forall k :: 0 <= k < |ids| ==> ids[k] in all
    ensures ToSet(ids) <= all
  {
  }

  lemma ReachIsContained(types: Types, roots: set<TypeId>, ids: set<TypeId>)
    requires Closed(types, ids) && roots <= ids
    requires AllReached(types, roots, ids)
    ensures IsReach(types, roots, ids)
  {
    forall root, t | root in roots && Reaches(types, root, t)
      ensures t in ids
    {
      var p :| Connects(types, p, root, t);
      ClosedContainsPath(types, ids, p);
    }
  }

  /**
    As long as no registration is overwritten, a short name finds a type iff exactly one registered type has
    it (and then that one), and is ambiguous iff at least two have it.
   */
  lemma ShortNamesExact(r: TypeRegistry, name: string)
    requires r.Valid() && NoDuplicates(r.indexed)
    ensures r.IsAmbiguous(name) <==> |Named(r.types, r.registrations.Keys, name)| >= 2
    ensures r.GetWithShortTypePath(name).Some? <==> |Named(r.types, r.registrations.Keys, name)| == 1
    ensures r.GetWithShortTypePath(name).Some? ==>
              Named(r.types, r.registrations.Keys, name) == {r.GetWithShortTypePath(name).value.typeId}
  {
    assert NameExact(r.types, r.indexed, r.shortPathToId, r.ambiguousNames, name);
    CountIsCardinality(r.types, r.indexed, name);
    var named := Named(r.types, r.registrations.Keys, name);
    if r.GetWithShortTypePath(name).Some? {
      SoleMember(named, r.shortPathToId[name]);
    }
  }

  /** After `register` alone, a short name that one registered type has finds what that type declares. */
  lemma NameFindsDeclaration(r: TypeRegistry, name: string, id: TypeId)
    requires r.Valid() && NoDuplicates(r.indexed) && Derived(r.types, map[], r.registrations)
    requires Named(r.types, r.registrations.Keys, name) == {id}
    ensures id in r.types && r.GetWithShortTypePath(name) == Some(Registration(id, r.types[id].data))
  {
    ShortNamesExact(r, name);
    hide TypeRegistry.Valid;
    var found := r.GetWithShortTypePath(name).value;
    assert found.typeId in {id};
    assert id in Named(r.types, r.registrations.Keys, name);
    DerivedIsFound(r, name);
  }

  lemma DerivedIsFound(r: TypeRegistry, name: string)
    requires r.Valid() && Derived(r.types, map[], r.registrations) && r.GetWithShortTypePath(name).Some?
    ensures var found := r.GetWithShortTypePath(name).value;
            found.typeId in r.types && found == Registration(found.typeId, r.types[found.typeId].data)
  {
    hide NameExact;
  }

  lemma SoleMember(ids: set<TypeId>, id: TypeId)
    requires id in ids && |ids| == 1
    ensures ids == {id}
  {
    assert ids - {id} == {} by {
      assert |ids - {id}| == 0;
    }
  }

  /** In any run at all, a name is ambiguous iff it has been indexed at least twice, whoever was indexed. */
  lemma AmbiguousIffIndexedTwice(r: TypeRegistry, name: string)
    requires r.Valid()
    ensures r.IsAmbiguous(name) <==> Count(r.types, r.indexed, name) >= 2
    ensures r.GetWithShortTypePath(name).Some? <==> Count(r.types, r.indexed, name) == 1
  {
    assert NameExact(r.types, r.indexed, r.shortPathToId, r.ambiguousNames, name);
  }

  /** Overwriting the only type of its name makes the name ambiguous: the type cannot be found by it any more. */
  method OverwritingIsAmbiguous() returns (r: TypeRegistry)
    ensures fresh(r) && r.Valid()
    ensures Named(r.types, r.registrations.Keys, "Foo") == {0}
    ensures r.IsAmbiguous("Foo") && r.GetWithShortTypePath("Foo").None?
  {
    r := new TypeRegistry(map[0 := TypeDecl("Foo", "crate::Foo", 0, [])]);
    r.Register(0);
    CountedIsNamed(r.types, r.indexed, "Foo");
    assert 0 in Named(r.types, r.registrations.Keys, "Foo");
    ghost var before := r.indexed;
    r.OverwriteRegistration(Registration(0, 1));
    CountSnoc(r.types, before, 0, "Foo");
    AmbiguousIffIndexedTwice(r, "Foo");
  }
}
