/**
  The loops of `try_apply` and `reflect_partial_eq`, one per kind of container, proved against the
  functions whose laws are in `ReflectValues`. A child is owned by its container, so patching a child in
  place is replacing it there.
 */
module ReflectOps {
  import opened Collections
  import opened ReflectMeanings
  import opened ReflectValues

  // ---- labels and the ways of finding a child ----------------------------------------------------

  lemma {:induction false} PositionIndex(n: nat, k: nat)
    ensures IndexOf(Positions(n), Position(k)) == if k < n then Some(k) else None
  {
    if k < n {
      assert Positions(n)[k] == Position(k);
      IndexIsUnique(Positions(n), k);
    }
  }

  lemma {:induction false} SameIndex<A, B>(xs: seq<A>, ys: seq<B>, x: A, y: B)
    requires |xs| == |ys|
    requires forall k :: 0 <= k < |xs| ==> (xs[k] == x <==> ys[k] == y)
    ensures IndexOf(xs, x) == IndexOf(ys, y)
  {
    if xs != [] {
      forall k | 0 <= k < |xs| - 1
        ensures xs[1..][k] == x <==> ys[1..][k] == y
      {
        assert xs[1..][k] == xs[k + 1] && ys[1..][k] == ys[k + 1];
      }
      SameIndex(xs[1..], ys[1..], x, y);
    }
  }

  function NameLabels(names: seq<string>): seq<Label> {
    seq(|names|, k requires 0 <= k < |names| => Name(names[k]))
  }

  function KeyLabels(keys: seq<Key>): seq<Label> {
    seq(|keys|, k requires 0 <= k < |keys| => KeyLabel(keys[k]))
  }

  /** `field_mut` by name. */
  lemma NameIndex(names: seq<string>, name: string)
    ensures IndexOf(NameLabels(names), Name(name)) == IndexOf(names, name)
  {
    SameIndex(NameLabels(names), names, Name(name), name);
  }

  /** `get_mut` by key. */
  lemma KeyIndex(keys: seq<Key>, key: Key)
    ensures IndexOf(KeyLabels(keys), KeyLabel(key)) == IndexOf(keys, key)
  {
    SameIndex(KeyLabels(keys), keys, KeyLabel(key), key);
  }

  lemma MergeSnoc(grows: bool, labels: seq<Label>, children: seq<Value>, patchLabels: seq<Label>, patch: seq<Value>,
                  k: nat)
    requires |labels| == |children| && |patchLabels| == |patch| && k < |patch|
    requires Merge(grows, labels, children, patchLabels[..k], patch[..k]).error.None?
    ensures Merge(grows, labels, children, patchLabels[..k + 1], patch[..k + 1])
            == MergeOne(grows, Merge(grows, labels, children, patchLabels[..k], patch[..k]), patchLabels[k], patch[k])
  {
    assert patchLabels[..k + 1][..k] == patchLabels[..k] && patch[..k + 1][..k] == patch[..k];
  }

  /** An error stays the result, whatever children of the patch are left. */
  lemma {:induction false} ErrorsStick(grows: bool, labels: seq<Label>, children: seq<Value>, patchLabels: seq<Label>,
                                       patch: seq<Value>, k: nat)
    requires |labels| == |children| && |patchLabels| == |patch| && k <= |patch|
    requires Merge(grows, labels, children, patchLabels[..k], patch[..k]).error.Some?
    ensures Merge(grows, labels, children, patchLabels, patch)
            == Merge(grows, labels, children, patchLabels[..k], patch[..k])
    decreases |patch|
  {
    if k == |patch| {
      assert patchLabels[..k] == patchLabels && patch[..k] == patch;
    } else {
      var n := |patch| - 1;
      assert patchLabels[..n][..k] == patchLabels[..k] && patch[..n][..k] == patch[..k];
      ErrorsStick(grows, labels, children, patchLabels[..n], patch[..n], k);
    }
  }

  // ---- try_apply -----------------------------------------------------------------------------------

  ghost predicate AllWf(children: seq<Value>) {
    forall k :: 0 <= k < |children| ==> Wf(children[k])
  }

  /** The loop of `list_try_apply`: patch what is there, append clones of the rest. */
  method ListApply(children: seq<Value>, patch: seq<Value>) returns (list: seq<Value>, error: Option<ApplyError>)
    requires AllWf(children) && AllWf(patch)
    ensures var m := Merge(true, Positions(|children|), children, Positions(|patch|), patch);
            list == m.children && error == m.error
    decreases patch, 2
  {
    hide TryApply, Merge, Wf;
    ghost var labels, patchLabels := Positions(|children|), Positions(|patch|);
    MergeNothing(true, labels, children, patchLabels, patch);
    list, error := children, None;
    for k := 0 to |patch|
      invariant error.None? && AllWf(list) && k <= |list|
      invariant Merge(true, labels, children, patchLabels[..k], patch[..k]) == Merged(Positions(|list|), list, None)
    {
      MergeSnoc(true, labels, children, patchLabels, patch, k);
      PositionIndex(|list|, k);
      if k < |list| {
        PatchKeepsWf(list[k], patch[k]);
        var value, e := ApplyValue(list[k], patch[k]);
        list := list[k := value];
        if e.Some? {
          ErrorsStick(true, labels, children, patchLabels, patch, k + 1);
          return list, e;
        }
      } else {
        CloneIsSame(patch[k]);
        assert Positions(|list|) + [Position(k)] == Positions(k + 1);
        list := list + [CloneValue(patch[k])];
      }
    }
    assert patchLabels[..|patch|] == patchLabels && patch[..|patch|] == patch;
  }

  lemma MergeNothing(grows: bool, labels: seq<Label>, children: seq<Value>, patchLabels: seq<Label>, patch: seq<Value>)
    requires |labels| == |children| && |patchLabels| == |patch|
    ensures Merge(grows, labels, children, patchLabels[..0], patch[..0]) == Merged(labels, children, None)
  {
  }

  /** The loop of `tuple_try_apply`, of tuple structs, and of `array_try_apply` once the sizes agree. */
  method TupleApply(children: seq<Value>, patch: seq<Value>) returns (fields: seq<Value>, error: Option<ApplyError>)
    requires AllWf(children) && AllWf(patch)
    ensures var m := Merge(false, Positions(|children|), children, Positions(|patch|), patch);
            fields == m.children && error == m.error
    decreases patch, 2
  {
    hide TryApply, Merge, Wf;
    ghost var labels, patchLabels := Positions(|children|), Positions(|patch|);
    MergeNothing(false, labels, children, patchLabels, patch);
    fields, error := children, None;
    for k := 0 to |patch|
      invariant error.None? && AllWf(fields) && |fields| == |children|
      invariant Merge(false, labels, children, patchLabels[..k], patch[..k]) == Merged(labels, fields, None)
    {
      MergeSnoc(false, labels, children, patchLabels, patch, k);
      PositionIndex(|fields|, k);
      if k < |fields| {
        PatchKeepsWf(fields[k], patch[k]);
        var value, e := ApplyValue(fields[k], patch[k]);
        fields := fields[k := value];
        if e.Some? {
          ErrorsStick(false, labels, children, patchLabels, patch, k + 1);
          return fields, e;
        }
      }
    }
    assert patchLabels[..|patch|] == patchLabels && patch[..|patch|] == patch;
  }

  /** The loop of `DynamicStruct::try_apply`: fields are found by name, and unknown names are ignored. */
  method StructApply(names: seq<string>, children: seq<Value>, patchNames: seq<string>, patch: seq<Value>)
    returns (fields: seq<Value>, error: Option<ApplyError>)
    requires |names| == |children| && |patchNames| == |patch|
    requires AllWf(children) && AllWf(patch)
    ensures var m := Merge(false, NameLabels(names), children, NameLabels(patchNames), patch);
            fields == m.children && error == m.error
    decreases patch, 2
  {
    hide TryApply, Merge, Wf;
    ghost var labels, patchLabels := NameLabels(names), NameLabels(patchNames);
    MergeNothing(false, labels, children, patchLabels, patch);
    fields, error := children, None;
    for k := 0 to |patch|
      invariant error.None? && AllWf(fields) && |fields| == |children|
      invariant Merge(false, labels, children, patchLabels[..k], patch[..k]) == Merged(labels, fields, None)
    {
      MergeSnoc(false, labels, children, patchLabels, patch, k);
      NameIndex(names, patchNames[k]);
      var found := IndexOf(names, patchNames[k]);
      if found.Some? {
        PatchKeepsWf(fields[found.value], patch[k]);
        var value, e := ApplyValue(fields[found.value], patch[k]);
        fields := fields[found.value := value];
        if e.Some? {
          ErrorsStick(false, labels, children, patchLabels, patch, k + 1);
          return fields, e;
        }
      }
    }
    assert patchLabels[..|patch|] == patchLabels && patch[..|patch|] == patch;
  }

  /** The loop of `map_try_apply`: values are found by key, and unknown keys are inserted with clones. */
  method MapApply(keys: seq<Key>, children: seq<Value>, patchKeys: seq<Key>, patch: seq<Value>)
    returns (keys': seq<Key>, values: seq<Value>, error: Option<ApplyError>)
    requires |keys| == |children| && |patchKeys| == |patch|
    requires AllWf(children) && AllWf(patch)
    ensures |keys'| == |values|
    ensures Merged(KeyLabels(keys'), values, error)
            == Merge(true, KeyLabels(keys), children, KeyLabels(patchKeys), patch)
    decreases patch, 2
  {
    hide TryApply, Merge, Wf;
    ghost var labels, patchLabels := KeyLabels(keys), KeyLabels(patchKeys);
    MergeNothing(true, labels, children, patchLabels, patch);
    keys', values, error := keys, children, None;
    for k := 0 to |patch|
      invariant error.None? && AllWf(values) && |keys'| == |values|
      invariant Merge(true, labels, children, patchLabels[..k], patch[..k]) == Merged(KeyLabels(keys'), values, None)
    {
      MergeSnoc(true, labels, children, patchLabels, patch, k);
      KeyIndex(keys', patchKeys[k]);
      var found := IndexOf(keys', patchKeys[k]);
      if found.Some? {
        PatchKeepsWf(values[found.value], patch[k]);
        var value, e := ApplyValue(values[found.value], patch[k]);
        values := values[found.value := value];
        if e.Some? {
          ErrorsStick(true, labels, children, patchLabels, patch, k + 1);
          error := e;
          return;
        }
      } else {
        CloneIsSame(patch[k]);
        assert KeyLabels(keys') + [KeyLabel(patchKeys[k])] == KeyLabels(keys' + [patchKeys[k]]);
        keys', values := keys' + [patchKeys[k]], values + [CloneValue(patch[k])];
      }
    }
    assert patchLabels[..|patch|] == patchLabels && patch[..|patch|] == patch;
  }

  /** `Reflect::try_apply`. On an error the value may be partly patched. */
  method ApplyValue(a: Value, b: Value) returns (patched: Value, error: Option<ApplyError>)
    requires Wf(a) && Wf(b)
    ensures Outcome(patched, error) == TryApply(a, b)
    ensures Patches(a, b, Outcome(patched, error))
    decreases b, 3
  {
    hide Patches;
    PatchesIff(a, b, TryApply(a, b));
    if a.Leaf? {
      if b.Leaf? && b.leafType == a.leafType {
        return CloneValue(b), None;
      }
      return a, Some(MismatchedTypes);
    }
    if KindOf(b) != KindOf(a) {
      return a, Some(MismatchedKinds(KindOf(b), KindOf(a)));
    }
    LabelsByKind(a);
    LabelsByKind(b);
    match a {
      case List(children) =>
        var list, e := ListApply(children, b.children);
        return List(list), e;
      case Tuple(children) =>
        var fields, e := TupleApply(children, b.children);
        return Tuple(fields), e;
      case TupleStruct(children) =>
        var fields, e := TupleApply(children, b.children);
        return TupleStruct(fields), e;
      case Array(children) =>
        if |children| != |b.children| {
          return a, Some(DifferentSize(|b.children|, |children|));
        }
        var items, e := TupleApply(children, b.children);
        return Array(items), e;
      case Struct(names, children) =>
        var fields, e := StructApply(names, children, b.names, b.children);
        return Struct(names, fields), e;
      case Map(keys, children) =>
        var keys', values, e := MapApply(keys, children, b.keys, b.children);
        assert KeysOf(KeyLabels(keys')) == keys';
        return Map(keys', values), e;
    }
  }

  lemma LabelsByKind(v: Value)
    requires Wf(v) && !v.Leaf?
    ensures AllWf(v.children)
    ensures Labels(v)
            == if v.Struct? then NameLabels(v.names)
               else if v.Map? then KeyLabels(v.keys)
               else Positions(|v.children|)
  {
  }

  // ---- reflect_partial_eq ------------------------------------------------------------------------

  /** The loop of `list_partial_eq`, `array_partial_eq`, `tuple_partial_eq` and `tuple_struct_partial_eq`. */
  method ComparePositions(a: Value, b: Value) returns (r: Option<bool>)
    requires Wf(a) && Wf(b) && (a.List? || a.Array? || a.Tuple? || a.TupleStruct?) && KindOf(b) == KindOf(a)
    requires |a.children| == |b.children|
    ensures r == PartialEqFrom(a, b, 0)
    decreases a, 0
  {
    hide PartialEq, IndexOf, Labels;
    for k := 0 to |a.children|
      invariant PartialEqFrom(a, b, 0) == PartialEqFrom(a, b, k)
    {
      LabelsByKind(a);
      LabelsByKind(b);
      PositionIndex(|a.children|, k);
      var equal := CompareValues(a.children[k], b.children[k]);
      if equal != Some(true) {
        return equal;
      }
    }
    r := Some(true);
  }

  /** The loop of `struct_partial_eq`: the fields of `b`, looked up in `a`. */
  method CompareStructs(a: Value, b: Value) returns (r: Option<bool>)
    requires Wf(a) && Wf(b) && a.Struct? && b.Struct? && |a.children| == |b.children|
    ensures r == PartialEqFrom(a, b, 0)
    decreases a, 0
  {
    hide PartialEq, IndexOf, Labels;
    for k := 0 to |b.children|
      invariant PartialEqFrom(a, b, 0) == PartialEqFrom(a, b, k)
    {
      LabelsByKind(a);
      LabelsByKind(b);
      NameIndex(a.names, b.names[k]);
      var found := IndexOf(a.names, b.names[k]);
      if found.None? {
        return Some(false);
      }
      var equal := CompareValues(a.children[found.value], b.children[k]);
      if equal != Some(true) {
        return equal;
      }
    }
    r := Some(true);
  }

  /** The loop of `map_partial_eq`: the entries of `a`, looked up in `b`. */
  method CompareMaps(a: Value, b: Value) returns (r: Option<bool>)
    requires Wf(a) && Wf(b) && a.Map? && b.Map? && |a.children| == |b.children|
    ensures r == PartialEqFrom(a, b, 0)
    decreases a, 0
  {
    hide PartialEq, IndexOf, Labels;
    for k := 0 to |a.children|
      invariant PartialEqFrom(a, b, 0) == PartialEqFrom(a, b, k)
    {
      LabelsByKind(a);
      LabelsByKind(b);
      KeyIndex(b.keys, a.keys[k]);
      var found := IndexOf(b.keys, a.keys[k]);
      if found.None? {
        return Some(false);
      }
      var equal := CompareValues(a.children[k], b.children[found.value]);
      if equal != Some(true) {
        return equal;
      }
    }
    r := Some(true);
  }

  /** `Reflect::reflect_partial_eq`. */
  method CompareValues(a: Value, b: Value) returns (r: Option<bool>)
    requires Wf(a) && Wf(b)
    ensures r == PartialEq(a, b)
    ensures r.None? <==> Undecided(a, b)
    decreases a, 1
  {
    hide Undecided;
    UndecidedIff(a, b);
    if a.Leaf? {
      if !a.leafType.comparable {
        return None;
      }
      if b.Leaf? && b.leafType == a.leafType {
        return Some(a.content.Plain? && b.content.Plain? && a.content.value == b.content.value);
      }
      return Some(false);
    }
    if KindOf(b) != KindOf(a) || |a.children| != |b.children| {
      return Some(false);
    }
    if a.Struct? {
      r := CompareStructs(a, b);
    } else if a.Map? {
      r := CompareMaps(a, b);
    } else {
      r := ComparePositions(a, b);
    }
  }
}
