/**
  Reflected values as trees, and the patch algebra over them: `try_apply`, `clone_value` and
  `reflect_partial_eq`. Containers differ in how they find the counterpart of a child (by name, by
  position, by key) and in whether an unmatched child of the patch is dropped or added; a child is
  addressed by its label here, so the laws are proved once for all kinds.
 */
module ReflectValues {
  import opened Collections

  /** A value type; `comparable` says whether it registered `PartialEq`. */
  datatype LeafType = LeafType(id: nat, comparable: bool)

  datatype Content = Plain(value: int) | NotANumber

  /** A hashable leaf; its hash includes its type and is taken to be injective. */
  datatype Key = Key(typeId: nat, value: int)

  datatype Value =
    | Leaf(leafType: LeafType, content: Content)
    | Struct(names: seq<string>, children: seq<Value>)
    | TupleStruct(children: seq<Value>)
    | Tuple(children: seq<Value>)
    | List(children: seq<Value>)
    | Array(children: seq<Value>)
    | Map(keys: seq<Key>, children: seq<Value>)

  datatype Kind = LeafKind | StructKind | TupleStructKind | TupleKind | ListKind | ArrayKind | MapKind

  function KindOf(v: Value): Kind {
    match v
    case Leaf(_, _) => LeafKind
    case Struct(_, _) => StructKind
    case TupleStruct(_) => TupleStructKind
    case Tuple(_) => TupleKind
    case List(_) => ListKind
    case Array(_) => ArrayKind
    case Map(_, _) => MapKind
  }

  /** Fields are named once, keys occur once (`field_indices`, `indices`). */
  ghost predicate Wf(v: Value) {
    match v
    case Leaf(_, _) => true
    case Struct(names, children) =>
      |names| == |children| && NoDuplicates(names) && forall k :: 0 <= k < |children| ==> Wf(children[k])
    case Map(keys, children) =>
      |keys| == |children| && NoDuplicates(keys) && forall k :: 0 <= k < |children| ==> Wf(children[k])
    case _ =>
      forall k :: 0 <= k < |v.children| ==> Wf(v.children[k])
  }

  // ---- labels --------------------------------------------------------------------------------

  datatype Label = Name(name: string) | Position(index: nat) | KeyLabel(key: Key)

  /** The label of each child. */
  function Labels(v: Value): (r: seq<Label>)
    requires !v.Leaf?
    ensures |r| == |v.children|
  {
    seq(|v.children|, k requires 0 <= k < |v.children| =>
      if v.Struct? && k < |v.names| then Name(v.names[k])
      else if v.Map? && k < |v.keys| then KeyLabel(v.keys[k])
      else Position(k))
  }

  lemma LabelsAreDistinct(v: Value)
    requires !v.Leaf? && Wf(v)
    ensures NoDuplicates(Labels(v))
  {
  }

  function KeysOf(labels: seq<Label>): seq<Key> {
    seq(|labels|, k requires 0 <= k < |labels| => if labels[k].KeyLabel? then labels[k].key else Key(0, 0))
  }

  /** A container with the same kind and, unless it is a map, the same labels, over new children. */
  function Rebuilt(v: Value, labels: seq<Label>, children: seq<Value>): Value
    requires !v.Leaf?
  {
    match v
    case Struct(names, _) => Struct(names, children)
    case TupleStruct(_) => TupleStruct(children)
    case Tuple(_) => Tuple(children)
    case List(_) => List(children)
    case Array(_) => Array(children)
    case Map(_, _) => Map(KeysOf(labels), children)
  }

  /** Lists and maps take in what they do not have. */
  predicate Grows(v: Value) {
    v.List? || v.Map?
  }

  // ---- clone_value -----------------------------------------------------------------------------

  function CloneValue(v: Value): Value {
    match v
    case Leaf(leafType, content) => Leaf(leafType, content)
    case Struct(names, children) => Struct(names, CloneAll(children))
    case TupleStruct(children) => TupleStruct(CloneAll(children))
    case Tuple(children) => Tuple(CloneAll(children))
    case List(children) => List(CloneAll(children))
    case Array(children) => Array(CloneAll(children))
    case Map(keys, children) => Map(keys, CloneAll(children))
  }

  function CloneAll(children: seq<Value>): seq<Value> {
    if children == [] then [] else [CloneValue(children[0])] + CloneAll(children[1..])
  }

  /** A clone is structurally the same tree. */
  lemma {:induction false} CloneIsSame(v: Value)
    ensures CloneValue(v) == v
    decreases v, 1
  {
    if !v.Leaf? {
      CloneAllIsSame(v.children);
    }
  }

  lemma {:induction false} CloneAllIsSame(children: seq<Value>)
    ensures CloneAll(children) == children
    decreases children, 0
  {
    if children != [] {
      CloneIsSame(children[0]);
      CloneAllIsSame(children[1..]);
      assert [children[0]] + children[1..] == children;
    }
  }

  // ---- try_apply -------------------------------------------------------------------------------

  datatype ApplyError =
    | MismatchedKinds(fromKind: Kind, toKind: Kind)
    | MismatchedTypes
    | DifferentSize(fromSize: nat, toSize: nat)

  /** The patched value, which is only partly patched if there is an error. */
  datatype Outcome = Outcome(value: Value, error: Option<ApplyError>)

  datatype Merged = Merged(labels: seq<Label>, children: seq<Value>, error: Option<ApplyError>)

  function TryApply(a: Value, b: Value): Outcome
    decreases b, 1
  {
    if a.Leaf? then
      if b.Leaf? && b.leafType == a.leafType then Outcome(CloneValue(b), None)
      else Outcome(a, Some(MismatchedTypes))
    else if KindOf(b) != KindOf(a) then
      Outcome(a, Some(MismatchedKinds(KindOf(b), KindOf(a))))
    else if a.Array? && |a.children| != |b.children| then
      Outcome(a, Some(DifferentSize(|b.children|, |a.children|)))
    else
      var m := Merge(Grows(a), Labels(a), a.children, Labels(b), b.children);
      Outcome(Rebuilt(a, m.labels, m.children), m.error)
  }

  /** The children of the patch one after the other; the first error stops it. */
  function Merge(grows: bool, labels: seq<Label>, children: seq<Value>, patchLabels: seq<Label>,
                 patch: seq<Value>): (m: Merged)
    requires |labels| == |children| && |patchLabels| == |patch|
    ensures |m.labels| == |m.children|
    decreases patch, 0
  {
    if patch == [] then Merged(labels, children, None)
    else
      var n := |patch| - 1;
      var m := Merge(grows, labels, children, patchLabels[..n], patch[..n]);
      if m.error.Some? then m else MergeOne(grows, m, patchLabels[n], patch[n])
  }

  function MergeOne(grows: bool, m: Merged, l: Label, p: Value): (r: Merged)
    requires |m.labels| == |m.children|
    ensures |r.labels| == |r.children|
    decreases p, 2
  {
    match IndexOf(m.labels, l)
    case Some(i) =>
      var o := TryApply(m.children[i], p);
      Merged(m.labels, m.children[i := o.value], o.error)
    case None =>
      if grows then Merged(m.labels + [l], m.children + [CloneValue(p)], None) else m
  }

  // ---- what a successful merge does ------------------------------------------------------------

  /** Child `p` of the patch, labelled `l`, has reached its counterpart, if it has one. */
  ghost predicate PatchTaken(grows: bool, labels: seq<Label>, children: seq<Value>, l: Label, p: Value, m: Merged)
    requires |labels| == |children| && |m.labels| == |m.children|
  {
    match IndexOf(labels, l)
    case Some(i) => i < |m.children| && TryApply(children[i], p) == Outcome(m.children[i], None)
    case None => grows ==> IndexOf(m.labels, l).Some? && m.children[IndexOf(m.labels, l).value] == p
  }

  /** The labels of the patch that have no counterpart, in order. */
  function Unmatched(labels: seq<Label>, patchLabels: seq<Label>): seq<Label> {
    if patchLabels == [] then []
    else
      var n := |patchLabels| - 1;
      Unmatched(labels, patchLabels[..n]) + if patchLabels[n] in labels then [] else [patchLabels[n]]
  }

  lemma {:induction false} UnmatchedMembers(labels: seq<Label>, patchLabels: seq<Label>, l: Label)
    ensures l in Unmatched(labels, patchLabels) <==> l in patchLabels && l !in labels
  {
    if patchLabels != [] {
      var n := |patchLabels| - 1;
      UnmatchedMembers(labels, patchLabels[..n], l);
      assert patchLabels == patchLabels[..n] + [patchLabels[n]];
    }
  }

  /** Labels are kept, in order, and unmatched labels of the patch are appended if the container grows. */
  ghost predicate LabelsMerged(grows: bool, labels: seq<Label>, patchLabels: seq<Label>, merged: seq<Label>) {
    && NoDuplicates(merged)
    && merged == labels + if grows then Unmatched(labels, patchLabels) else []
  }

  lemma LabelsMergedMembers(grows: bool, labels: seq<Label>, patchLabels: seq<Label>, merged: seq<Label>, l: Label)
    requires LabelsMerged(grows, labels, patchLabels, merged)
    ensures l in merged <==> l in labels || (grows && l in patchLabels)
  {
    UnmatchedMembers(labels, patchLabels, l);
  }

  /** Matched children are patched, the others are kept, and unmatched patches are dropped or added. */
  ghost predicate MergedAs(grows: bool, labels: seq<Label>, children: seq<Value>, patchLabels: seq<Label>,
                           patch: seq<Value>, m: Merged)
    requires |labels| == |children| && |patchLabels| == |patch|
  {
    && |m.labels| == |m.children| && LabelsMerged(grows, labels, patchLabels, m.labels)
    && (forall i :: 0 <= i < |labels| && labels[i] !in patchLabels ==> m.children[i] == children[i])
    && (forall k :: 0 <= k < |patch| ==> PatchTaken(grows, labels, children, patchLabels[k], patch[k], m))
  }

  lemma IndexInPrefix(xs: seq<Label>, ys: seq<Label>, l: Label)
    requires NoDuplicates(ys) && xs <= ys && l in xs
    ensures IndexOf(ys, l) == IndexOf(xs, l)
  {
    var i := IndexOf(xs, l).value;
    assert ys[i] == xs[i] == l;
    IndexIsUnique(ys, i);
  }

  lemma {:induction false} MergeMeans(grows: bool, labels: seq<Label>, children: seq<Value>, patchLabels: seq<Label>,
                                      patch: seq<Value>)
    requires |labels| == |children| && NoDuplicates(labels)
    requires |patchLabels| == |patch| && NoDuplicates(patchLabels)
    requires Merge(grows, labels, children, patchLabels, patch).error.None?
    ensures MergedAs(grows, labels, children, patchLabels, patch, Merge(grows, labels, children, patchLabels, patch))
    decreases |patch|
  {
    if patch != [] {
      var n := |patch| - 1;
      MergeMeans(grows, labels, children, patchLabels[..n], patch[..n]);
      var m := Merge(grows, labels, children, patchLabels[..n], patch[..n]);
      MergeOneMeans(grows, labels, children, patchLabels, patch, m);
    }
  }

  lemma MergeOneMeans(grows: bool, labels: seq<Label>, children: seq<Value>, patchLabels: seq<Label>, patch: seq<Value>,
                      m: Merged)
    requires |labels| == |children| && NoDuplicates(labels)
    requires |patchLabels| == |patch| > 0 && NoDuplicates(patchLabels)
    requires var n := |patch| - 1;
             && MergedAs(grows, labels, children, patchLabels[..n], patch[..n], m) && m.error.None?
             && MergeOne(grows, m, patchLabels[n], patch[n]).error.None?
    ensures MergedAs(grows, labels, children, patchLabels, patch,
                     MergeOne(grows, m, patchLabels[|patch| - 1], patch[|patch| - 1]))
  {
    hide TryApply, Merge, CloneValue, PatchTaken, LabelsMerged;
    var n := |patch| - 1;
    var l, p := patchLabels[n], patch[n];
    var r := MergeOne(grows, m, l, p);
    LastPatchLands(grows, labels, children, patchLabels, patch, m);
    forall k | 0 <= k < |patch|
      ensures PatchTaken(grows, labels, children, patchLabels[k], patch[k], r)
    {
      if k < n {
        EarlierPatchStays(grows, labels, children, patchLabels, patch, m, k);
      }
    }
  }

  lemma LastPatchLands(grows: bool, labels: seq<Label>, children: seq<Value>, patchLabels: seq<Label>,
                       patch: seq<Value>, m: Merged)
    requires |labels| == |children| && NoDuplicates(labels)
    requires |patchLabels| == |patch| > 0 && NoDuplicates(patchLabels)
    requires var n := |patch| - 1;
             && MergedAs(grows, labels, children, patchLabels[..n], patch[..n], m) && m.error.None?
             && MergeOne(grows, m, patchLabels[n], patch[n]).error.None?
    ensures var r := MergeOne(grows, m, patchLabels[|patch| - 1], patch[|patch| - 1]);
            && LabelsMerged(grows, labels, patchLabels, r.labels) && NoDuplicates(r.labels)
            && PatchTaken(grows, labels, children, patchLabels[|patch| - 1], patch[|patch| - 1], r)
            && forall i :: 0 <= i < |labels| && labels[i] !in patchLabels ==> r.children[i] == children[i]
  {
    hide TryApply, Merge, CloneValue;
    var n := |patch| - 1;
    var l, p := patchLabels[n], patch[n];
    var r := MergeOne(grows, m, l, p);
    assert patchLabels == patchLabels[..n] + [l] && l !in patchLabels[..n];
    CloneIsSame(p);
    LabelsMergedMembers(grows, labels, patchLabels[..n], m.labels, l);
    LabelsMergedOnce(grows, labels, patchLabels, m.labels, r.labels);
    if l in labels {
      // the child reached now was not touched before
      IndexInPrefix(labels, m.labels, l);
      var i := IndexOf(labels, l).value;
      assert labels[i] !in patchLabels[..n] && m.children[i] == children[i];
    } else if grows {
      IndexIsUnique(r.labels, |m.labels|);
    }
    hide NoDuplicates, Unmatched;
    forall i | 0 <= i < |labels| && labels[i] !in patchLabels
      ensures r.children[i] == children[i]
    {
      assert labels[i] !in patchLabels[..n] && labels[i] != l;
    }
  }

  lemma EarlierPatchStays(grows: bool, labels: seq<Label>, children: seq<Value>, patchLabels: seq<Label>,
                          patch: seq<Value>, m: Merged, k: nat)
    requires |labels| == |children| && NoDuplicates(labels)
    requires |patchLabels| == |patch| && k < |patch| - 1 && NoDuplicates(patchLabels)
    requires var n := |patch| - 1;
             && MergedAs(grows, labels, children, patchLabels[..n], patch[..n], m) && m.error.None?
             && NoDuplicates(MergeOne(grows, m, patchLabels[n], patch[n]).labels)
    ensures PatchTaken(grows, labels, children, patchLabels[k], patch[k],
                       MergeOne(grows, m, patchLabels[|patch| - 1], patch[|patch| - 1]))
  {
    var n := |patch| - 1;
    var l, p := patchLabels[n], patch[n];
    var r := MergeOne(grows, m, l, p);
    assert PatchTaken(grows, labels, children, patchLabels[..n][k], patch[..n][k], m);
    assert patchLabels[k] != l;
    hide TryApply, CloneValue;
    if patchLabels[k] in labels {
      assert labels <= m.labels;
      IndexInPrefix(labels, m.labels, patchLabels[k]);
    } else if grows {
      IndexInPrefix(m.labels, r.labels, patchLabels[k]);
    }
  }

  lemma LabelsMergedOnce(grows: bool, labels: seq<Label>, patchLabels: seq<Label>, before: seq<Label>,
                         after: seq<Label>)
    requires patchLabels != [] && NoDuplicates(patchLabels)
    requires var n := |patchLabels| - 1;
             && LabelsMerged(grows, labels, patchLabels[..n], before)
             && after == if patchLabels[n] in before || !grows then before else before + [patchLabels[n]]
    ensures LabelsMerged(grows, labels, patchLabels, after)
  {
    var n := |patchLabels| - 1;
    LabelsMergedMembers(grows, labels, patchLabels[..n], before, patchLabels[n]);
    assert patchLabels[n] !in patchLabels[..n];
  }

  /** If every patch finds a counterpart that it leaves alone, or none and nothing is added, nothing changes. */
  lemma {:induction false} NothingToMerge(grows: bool, labels: seq<Label>, children: seq<Value>,
                                          patchLabels: seq<Label>, patch: seq<Value>)
    requires |labels| == |children| && |patchLabels| == |patch|
    requires forall k :: 0 <= k < |patch| ==>
               match IndexOf(labels, patchLabels[k])
               case Some(i) => TryApply(children[i], patch[k]) == Outcome(children[i], None)
               case None => !grows
    ensures Merge(grows, labels, children, patchLabels, patch) == Merged(labels, children, None)
    decreases |patch|
  {
    if patch != [] {
      var n := |patch| - 1;
      forall k | 0 <= k < n
        ensures match IndexOf(labels, patchLabels[..n][k])
                case Some(i) => TryApply(children[i], patch[..n][k]) == Outcome(children[i], None)
                case None => !grows
      {
        assert patchLabels[..n][k] == patchLabels[k] && patch[..n][k] == patch[k];
      }
      NothingToMerge(grows, labels, children, patchLabels[..n], patch[..n]);
      hide TryApply;
      match IndexOf(labels, patchLabels[n]) {
        case Some(i) => assert children[i := children[i]] == children;
        case None =>
      }
    }
  }

  // ---- the laws ----------------------------------------------------------------------------------

  /** Applying a value to itself, or to its clone, changes nothing. */
  lemma {:induction false} ApplyingToItself(v: Value)
    requires Wf(v)
    ensures TryApply(v, v) == Outcome(v, None)
    decreases v
  {
    if v.Leaf? {
      CloneIsSame(v);
    } else {
      LabelsAreDistinct(v);
      var labels := Labels(v);
      forall k | 0 <= k < |v.children|
        ensures IndexOf(labels, labels[k]) == Some(k)
        ensures TryApply(v.children[k], v.children[k]) == Outcome(v.children[k], None)
      {
        IndexIsUnique(labels, k);
        ApplyingToItself(v.children[k]);
      }
      NothingToMerge(Grows(v), labels, v.children, labels, v.children);
      RebuiltSame(v);
    }
  }

  lemma RebuiltSame(v: Value)
    requires Wf(v) && !v.Leaf?
    ensures Rebuilt(v, Labels(v), v.children) == v
  {
    if v.Map? {
      assert KeysOf(Labels(v)) == v.keys;
    }
  }

  function Max(a: nat, b: nat): nat {
    if a < b then b else a
  }

  function Positions(n: nat): seq<Label> {
    seq(n, k requires 0 <= k < n => Position(k))
  }

  /** A list that grows is still numbered through. */
  lemma {:induction false} PositionsMerge(a: nat, b: nat)
    ensures Positions(a) + Unmatched(Positions(a), Positions(b)) == Positions(Max(a, b))
  {
    if b == 0 {
      assert Positions(a) + [] == Positions(a);
    } else {
      PositionsMerge(a, b - 1);
      assert Positions(b)[..b - 1] == Positions(b - 1) && Positions(b)[b - 1] == Position(b - 1);
      if b <= a {
        assert Positions(a)[b - 1] == Position(b - 1);
      } else {
        assert Position(b - 1) !in Positions(a);
        assert Positions(b) == Positions(b - 1) + [Position(b - 1)];
        assert Positions(a) + (Unmatched(Positions(a), Positions(b - 1)) + [Position(b - 1)])
            == (Positions(a) + Unmatched(Positions(a), Positions(b - 1))) + [Position(b - 1)];
      }
    }
  }

  /** The labels of a successfully patched container are the merged labels. */
  lemma PatchedLabels(a: Value, b: Value)
    requires Wf(a) && Wf(b) && !a.Leaf? && KindOf(a) == KindOf(b)
    requires TryApply(a, b).error.None?
    ensures !TryApply(a, b).value.Leaf? && KindOf(TryApply(a, b).value) == KindOf(a)
    ensures LabelsMerged(Grows(a), Labels(a), Labels(b), Labels(TryApply(a, b).value))
    ensures var m := Merge(Grows(a), Labels(a), a.children, Labels(b), b.children);
            Labels(TryApply(a, b).value) == m.labels && TryApply(a, b).value.children == m.children
  {
    LabelsAreDistinct(a);
    LabelsAreDistinct(b);
    MergeMeans(Grows(a), Labels(a), a.children, Labels(b), b.children);
    var m := Merge(Grows(a), Labels(a), a.children, Labels(b), b.children);
    var a' := TryApply(a, b).value;
    hide Merge;
    if a.List? {
      assert Labels(a) == Positions(|a.children|) && Labels(b) == Positions(|b.children|);
      PositionsMerge(|a.children|, |b.children|);
      assert Labels(a') == Positions(|m.labels|);
    } else if a.Map? {
      forall k | 0 <= k < |m.labels|
        ensures m.labels[k].KeyLabel?
      {
        LabelsMergedMembers(true, Labels(a), Labels(b), m.labels, m.labels[k]);
      }
      assert Labels(a') == m.labels;
    } else {
      assert m.labels == Labels(a);
      assert Labels(a') == m.labels;
    }
  }

  lemma SecondPatch(grows: bool, labels: seq<Label>, children: seq<Value>, patchLabels: seq<Label>, patch: seq<Value>,
                    m: Merged, k: nat)
    requires |labels| == |children| && NoDuplicates(labels)
    requires |patchLabels| == |patch| && k < |patch|
    requires MergedAs(grows, labels, children, patchLabels, patch, m)
    ensures patchLabels[k] in labels ==>
              && IndexOf(m.labels, patchLabels[k]) == IndexOf(labels, patchLabels[k])
              && TryApply(children[IndexOf(labels, patchLabels[k]).value], patch[k])
                 == Outcome(m.children[IndexOf(labels, patchLabels[k]).value], None)
    ensures patchLabels[k] !in labels && grows ==>
              IndexOf(m.labels, patchLabels[k]).Some? && m.children[IndexOf(m.labels, patchLabels[k]).value] == patch[k]
    ensures patchLabels[k] !in labels && !grows ==> IndexOf(m.labels, patchLabels[k]).None?
  {
    hide TryApply;
    assert PatchTaken(grows, labels, children, patchLabels[k], patch[k], m);
    if patchLabels[k] in labels {
      IndexInPrefix(labels, m.labels, patchLabels[k]);
    }
  }

  /** A second application of the same patch succeeds and changes nothing. */
  lemma {:induction false} PatchingIsIdempotent(a: Value, b: Value)
    requires Wf(a) && Wf(b)
    requires TryApply(a, b).error.None?
    ensures TryApply(TryApply(a, b).value, b) == TryApply(a, b)
    decreases b
  {
    if a.Leaf? {
      CloneIsSame(b);
    } else {
      var m := Merge(Grows(a), Labels(a), a.children, Labels(b), b.children);
      LabelsAreDistinct(a);
      LabelsAreDistinct(b);
      MergeMeans(Grows(a), Labels(a), a.children, Labels(b), b.children);
      PatchedLabels(a, b);
      forall k | 0 <= k < |b.children|
        ensures match IndexOf(m.labels, Labels(b)[k])
                case Some(i) => TryApply(m.children[i], b.children[k]) == Outcome(m.children[i], None)
                case None => !Grows(a)
      {
        SecondPatch(Grows(a), Labels(a), a.children, Labels(b), b.children, m, k);
        if Labels(b)[k] in Labels(a) {
          var i := IndexOf(Labels(a), Labels(b)[k]).value;
          PatchingIsIdempotent(a.children[i], b.children[k]);
        } else if Grows(a) {
          ApplyingToItself(b.children[k]);
        }
      }
      NothingToMerge(Grows(a), m.labels, m.children, Labels(b), b.children);
    }
  }

  /**
    What a successful patch keeps: the kind and, of a struct, the field names; tuples and arrays keep their
    length, a list gets the longer of the two lengths, and a map the union of the keys, old ones first.
   */
  lemma PatchingFrames(a: Value, b: Value)
    requires Wf(a) && Wf(b)
    requires TryApply(a, b).error.None?
    ensures KindOf(TryApply(a, b).value) == KindOf(a) == KindOf(b)
    ensures a.Struct? ==> TryApply(a, b).value.names == a.names && |TryApply(a, b).value.children| == |a.children|
    ensures a.Tuple? || a.TupleStruct? || a.Array? ==> |TryApply(a, b).value.children| == |a.children|
    ensures a.List? ==> |TryApply(a, b).value.children| == Max(|a.children|, |b.children|)
    ensures a.Map? ==>
              && a.keys <= TryApply(a, b).value.keys
              && ToSet(TryApply(a, b).value.keys) == ToSet(a.keys) + ToSet(b.keys)
  {
    if a.Leaf? {
    } else {
      PatchedLabels(a, b);
      var a' := TryApply(a, b).value;
      hide TryApply;
      if a.List? {
        assert Labels(a) == Positions(|a.children|) && Labels(b) == Positions(|b.children|);
        PositionsMerge(|a.children|, |b.children|);
      } else if a.Map? {
        MapKeysMerge(a, b, a');
      }
    }
  }

  lemma MapKeysMerge(a: Value, b: Value, a': Value)
    requires a.Map? && b.Map? && a'.Map? && Wf(a) && Wf(b)
    requires |a'.keys| == |a'.children| && LabelsMerged(true, Labels(a), Labels(b), Labels(a'))
    ensures a.keys <= a'.keys && ToSet(a'.keys) == ToSet(a.keys) + ToSet(b.keys)
  {
    forall k | 0 <= k < |a.keys|
      ensures a.keys[k] == a'.keys[k]
    {
      assert Labels(a)[k] == Labels(a')[k];
    }
    forall key
      ensures key in a'.keys <==> key in a.keys || key in b.keys
    {
      LabelsMergedMembers(true, Labels(a), Labels(b), Labels(a'), KeyLabel(key));
      KeyIsLabel(a, key);
      KeyIsLabel(b, key);
      KeyIsLabel(a', key);
    }
  }

  lemma KeyIsLabel(v: Value, key: Key)
    requires v.Map? && |v.keys| == |v.children|
    ensures KeyLabel(key) in Labels(v) <==> key in v.keys
  {
    if key in v.keys {
      var k :| 0 <= k < |v.keys| && v.keys[k] == key;
      assert Labels(v)[k] == KeyLabel(key);
    }
  }

  /** Even a patch that fails half way leaves a well-formed value. */
  lemma {:induction false} PatchKeepsWf(a: Value, b: Value)
    requires Wf(a) && Wf(b)
    ensures Wf(TryApply(a, b).value)
    decreases b, 1
  {
    if a.Leaf? {
    } else if KindOf(a) == KindOf(b) {
      LabelsAreDistinct(a);
      MergeKeepsWf(Grows(a), Labels(a), a.children, Labels(b), b.children);
      var m := Merge(Grows(a), Labels(a), a.children, Labels(b), b.children);
      hide Merge;
      if a.Map? {
        assert forall k :: 0 <= k < |m.labels| ==> m.labels[k].KeyLabel?;
      }
    }
  }

  lemma {:induction false} MergeKeepsWf(grows: bool, labels: seq<Label>, children: seq<Value>, patchLabels: seq<Label>,
                                        patch: seq<Value>)
    requires |labels| == |children| && NoDuplicates(labels) && |patchLabels| == |patch|
    requires forall k :: 0 <= k < |children| ==> Wf(children[k])
    requires forall k :: 0 <= k < |patch| ==> Wf(patch[k])
    ensures var m := Merge(grows, labels, children, patchLabels, patch);
            && NoDuplicates(m.labels) && (!grows ==> m.labels == labels)
            && (forall k :: 0 <= k < |m.children| ==> Wf(m.children[k]))
            && (forall k :: 0 <= k < |m.labels| ==> m.labels[k] in labels || m.labels[k] in patchLabels)
    decreases patch, 0
  {
    if patch != [] {
      var n := |patch| - 1;
      MergeKeepsWf(grows, labels, children, patchLabels[..n], patch[..n]);
      var m := Merge(grows, labels, children, patchLabels[..n], patch[..n]);
      if m.error.None? {
        match IndexOf(m.labels, patchLabels[n]) {
          case Some(i) => PatchKeepsWf(m.children[i], patch[n]);
          case None => CloneIsSame(patch[n]);
        }
      }
      hide TryApply, Wf;
    }
  }

  /** What a successful patch does to the children, in terms of the values alone. */
  lemma PatchedChildren(a: Value, b: Value)
    requires Wf(a) && Wf(b) && !a.Leaf?
    requires TryApply(a, b).error.None?
    ensures var a' := TryApply(a, b).value;
            && !b.Leaf? && !a'.Leaf?
            && MergedAs(Grows(a), Labels(a), a.children, Labels(b), b.children, Merged(Labels(a'), a'.children, None))
  {
    LabelsAreDistinct(a);
    LabelsAreDistinct(b);
    MergeMeans(Grows(a), Labels(a), a.children, Labels(b), b.children);
    PatchedLabels(a, b);
  }

  /** Child `p` of the patch has no counterpart, or one that accepts it. */
  ghost predicate Accepts(labels: seq<Label>, children: seq<Value>, l: Label, p: Value)
    requires |labels| == |children|
  {
    match IndexOf(labels, l)
    case Some(i) => TryApply(children[i], p).error.None?
    case None => true
  }

  lemma {:induction false} MergeSucceedsIff(grows: bool, labels: seq<Label>, children: seq<Value>,
                                            patchLabels: seq<Label>, patch: seq<Value>)
    requires |labels| == |children| && NoDuplicates(labels)
    requires |patchLabels| == |patch| && NoDuplicates(patchLabels)
    ensures Merge(grows, labels, children, patchLabels, patch).error.None?
            <==> forall k :: 0 <= k < |patch| ==> Accepts(labels, children, patchLabels[k], patch[k])
    decreases |patch|
  {
    hide TryApply, CloneValue, MergedAs, Accepts, MergeOne;
    if patch != [] {
      var n := |patch| - 1;
      MergeSucceedsIff(grows, labels, children, patchLabels[..n], patch[..n]);
      var m := Merge(grows, labels, children, patchLabels[..n], patch[..n]);
      assert forall k :: 0 <= k < n ==> patchLabels[..n][k] == patchLabels[k] && patch[..n][k] == patch[k];
      if m.error.None? {
        MergeMeans(grows, labels, children, patchLabels[..n], patch[..n]);
        LastPatchAccepted(grows, labels, children, patchLabels, patch, m);
      }
    }
  }

  lemma LastPatchAccepted(grows: bool, labels: seq<Label>, children: seq<Value>, patchLabels: seq<Label>,
                          patch: seq<Value>, m: Merged)
    requires |labels| == |children| && NoDuplicates(labels)
    requires |patchLabels| == |patch| > 0 && NoDuplicates(patchLabels)
    requires var n := |patch| - 1; MergedAs(grows, labels, children, patchLabels[..n], patch[..n], m) && m.error.None?
    ensures var n := |patch| - 1;
            MergeOne(grows, m, patchLabels[n], patch[n]).error.None?
            <==> Accepts(labels, children, patchLabels[n], patch[n])
  {
    hide TryApply, Merge, CloneValue, PatchTaken;
    var n := |patch| - 1;
    var l := patchLabels[n];
    assert l !in patchLabels[..n];
    LabelsMergedMembers(grows, labels, patchLabels[..n], m.labels, l);
    if l in labels {
      IndexInPrefix(labels, m.labels, l);
      var i := IndexOf(labels, l).value;
      assert labels[i] !in patchLabels[..n];
    }
  }

  /** The two trees fit: same leaf types, same kinds, same array lengths, wherever the patch has a counterpart. */
  ghost predicate Fits(a: Value, b: Value)
    decreases b
  {
    if a.Leaf? || b.Leaf? then a.Leaf? && b.Leaf? && a.leafType == b.leafType
    else
      && KindOf(a) == KindOf(b)
      && (a.Array? ==> |a.children| == |b.children|)
      && forall k :: 0 <= k < |b.children| && Labels(b)[k] in Labels(a) ==>
           Fits(a.children[IndexOf(Labels(a), Labels(b)[k]).value], b.children[k])
  }

  /** A patch succeeds exactly when it fits. */
  lemma {:induction false} PatchSucceedsIff(a: Value, b: Value)
    requires Wf(a) && Wf(b)
    ensures TryApply(a, b).error.None? <==> Fits(a, b)
    decreases b
  {
    if !a.Leaf? && KindOf(a) == KindOf(b) {
      LabelsAreDistinct(a);
      LabelsAreDistinct(b);
      MergeSucceedsIff(Grows(a), Labels(a), a.children, Labels(b), b.children);
      forall k | 0 <= k < |b.children|
        ensures Accepts(Labels(a), a.children, Labels(b)[k], b.children[k])
                <==> (Labels(b)[k] in Labels(a) ==>
                        Fits(a.children[IndexOf(Labels(a), Labels(b)[k]).value], b.children[k]))
      {
        if Labels(b)[k] in Labels(a) {
          PatchSucceedsIff(a.children[IndexOf(Labels(a), Labels(b)[k]).value], b.children[k]);
        }
      }
      hide Merge;
    }
  }

  // ---- reflect_partial_eq ------------------------------------------------------------------------

  /**
    Structs and tuple structs go through the fields of `b` and look them up in `a`, maps the other way
    round; lists, arrays and tuples are zipped. The first answer that is not `Some(true)` is returned.
   */
  function PartialEq(a: Value, b: Value): Option<bool>
    decreases a, 1, 0
  {
    if a.Leaf? then
      if !a.leafType.comparable then None
      else if b.Leaf? && b.leafType == a.leafType then
        Some(a.content.Plain? && b.content.Plain? && a.content.value == b.content.value)
      else Some(false)
    else if KindOf(b) != KindOf(a) || |a.children| != |b.children| then Some(false)
    else PartialEqFrom(a, b, 0)
  }

  /** The comparison from the `k`-th child on. */
  function PartialEqFrom(a: Value, b: Value, k: nat): Option<bool>
    requires !a.Leaf? && !b.Leaf? && |a.children| == |b.children| && k <= |a.children|
    decreases a, 0, |a.children| - k
  {
    if k == |a.children| then Some(true)
    else
      match Pair(a, b, k)
      case None => Some(false)
      case Some((i, j)) =>
        var r := PartialEq(a.children[i], b.children[j]);
        if r != Some(true) then r else PartialEqFrom(a, b, k + 1)
  }

  /** The children compared in round `k`. */
  function Pair(a: Value, b: Value, k: nat): (r: Option<(nat, nat)>)
    requires !a.Leaf? && !b.Leaf? && |a.children| == |b.children| && k < |a.children|
    ensures r.Some? ==> r.value.0 < |a.children| && r.value.1 < |b.children|
    ensures r.Some? ==> Labels(a)[r.value.0] == Labels(b)[r.value.1]
    ensures r.Some? ==> if a.Map? then r.value.0 == k else r.value.1 == k
    ensures r.None? ==> if a.Map? then Labels(a)[k] !in Labels(b) else Labels(b)[k] !in Labels(a)
  {
    if a.Map? then
      match IndexOf(Labels(b), Labels(a)[k])
      case None => None
      case Some(j) => Some((k, j))
    else
      match IndexOf(Labels(a), Labels(b)[k])
      case None => None
      case Some(i) => Some((i, k))
  }

  ghost predicate Equal(a: Value, b: Value) {
    PartialEq(a, b) == Some(true)
  }

  lemma {:induction false} AllRoundsEqual(a: Value, b: Value, k: nat)
    requires !a.Leaf? && !b.Leaf? && |a.children| == |b.children| && k <= |a.children|
    ensures PartialEqFrom(a, b, k) == Some(true)
            <==> forall m :: k <= m < |a.children| ==> RoundEqual(a, b, m)
    decreases |a.children| - k
  {
    hide PartialEq, Pair, Labels, KindOf;
    if k < |a.children| {
      AllRoundsEqual(a, b, k + 1);
      if RoundEqual(a, b, k) {
        assert PartialEqFrom(a, b, k) == PartialEqFrom(a, b, k + 1);
      } else {
        assert PartialEqFrom(a, b, k) != Some(true);
      }
    }
  }

  ghost predicate RoundEqual(a: Value, b: Value, k: nat)
    requires !a.Leaf? && !b.Leaf? && |a.children| == |b.children| && k < |a.children|
  {
    Pair(a, b, k).Some? && Equal(a.children[Pair(a, b, k).value.0], b.children[Pair(a, b, k).value.1])
  }

  /** The two containers have the same labels, and equal children under each. */
  ghost predicate SameFields(a: Value, b: Value)
    requires !a.Leaf? && !b.Leaf?
  {
    && ToSet(Labels(a)) == ToSet(Labels(b))
    && forall i, j :: 0 <= i < |a.children| && 0 <= j < |b.children| && Labels(a)[i] == Labels(b)[j] ==>
         Equal(a.children[i], b.children[j])
  }

  lemma RoundsReachOuter(a: Value, b: Value, l: Label)
    requires !a.Leaf? && !b.Leaf? && |a.children| == |b.children|
    requires forall m :: 0 <= m < |a.children| ==> RoundEqual(a, b, m)
    ensures a.Map? && l in Labels(a) ==> l in Labels(b)
    ensures !a.Map? && l in Labels(b) ==> l in Labels(a)
  {
    hide Equal, Labels;
    var outer := if a.Map? then Labels(a) else Labels(b);
    if l in outer {
      var m :| 0 <= m < |outer| && outer[m] == l;
      assert RoundEqual(a, b, m);
    }
  }

  /** One side is walked through only, but with equal lengths and distinct labels that decides both sides. */
  lemma RoundsMeetAll(a: Value, b: Value)
    requires !a.Leaf? && !b.Leaf? && Wf(a) && Wf(b) && |a.children| == |b.children|
    requires KindOf(a) == KindOf(b)
    requires forall m :: 0 <= m < |a.children| ==> RoundEqual(a, b, m)
    ensures SameFields(a, b)
  {
    LabelsAreDistinct(a);
    LabelsAreDistinct(b);
    hide Equal, Labels, Wf;
    forall l: Label
      ensures a.Map? && l in Labels(a) ==> l in Labels(b)
      ensures !a.Map? && l in Labels(b) ==> l in Labels(a)
    {
      RoundsReachOuter(a, b, l);
    }
    if a.Map? {
      Pigeonhole(Labels(b), Labels(a));
    } else {
      Pigeonhole(Labels(a), Labels(b));
    }
    forall i, j | 0 <= i < |a.children| && 0 <= j < |b.children| && Labels(a)[i] == Labels(b)[j]
      ensures Equal(a.children[i], b.children[j])
    {
      assert RoundEqual(a, b, if a.Map? then i else j);
      IndexIsUnique(Labels(a), i);
      IndexIsUnique(Labels(b), j);
    }
  }

  lemma SameFieldsPassRounds(a: Value, b: Value, m: nat)
    requires !a.Leaf? && !b.Leaf? && |a.children| == |b.children| && m < |a.children|
    requires SameFields(a, b)
    ensures RoundEqual(a, b, m)
  {
    hide Equal, Labels;
    assert Labels(a)[m] in ToSet(Labels(a)) && Labels(b)[m] in ToSet(Labels(b));
  }

  /** What `Some(true)` means. */
  lemma EqualMeans(a: Value, b: Value)
    requires Wf(a) && Wf(b)
    ensures Equal(a, b)
            <==> if a.Leaf? || b.Leaf? then
                   a.Leaf? && b.Leaf? && a.leafType == b.leafType && a.leafType.comparable && a.content.Plain?
                     && a.content == b.content
                 else
                   KindOf(a) == KindOf(b) && |a.children| == |b.children| && SameFields(a, b)
  {
    if !a.Leaf? && !b.Leaf? && KindOf(a) == KindOf(b) && |a.children| == |b.children| {
      AllRoundsEqual(a, b, 0);
      hide RoundEqual, SameFields;
      if Equal(a, b) {
        RoundsMeetAll(a, b);
      }
      if SameFields(a, b) {
        forall m | 0 <= m < |a.children|
          ensures RoundEqual(a, b, m)
        {
          SameFieldsPassRounds(a, b, m);
        }
      }
    }
  }

  /** No leaf is of a type without `PartialEq`, or a NaN. */
  predicate Comparable(v: Value) {
    if v.Leaf? then v.leafType.comparable && v.content.Plain?
    else forall k :: 0 <= k < |v.children| ==> Comparable(v.children[k])
  }

  lemma {:induction false} ReflexiveIff(v: Value)
    requires Wf(v)
    ensures Equal(v, v) <==> Comparable(v)
    decreases v
  {
    EqualMeans(v, v);
    if !v.Leaf? {
      LabelsAreDistinct(v);
      hide Equal;
      forall k | 0 <= k < |v.children|
        ensures Equal(v.children[k], v.children[k]) <==> Comparable(v.children[k])
      {
        ReflexiveIff(v.children[k]);
      }
    }
  }

  /** A value equals its clone exactly when it is comparable. */
  lemma CloneIsEqualIff(v: Value)
    requires Wf(v)
    ensures Equal(v, CloneValue(v)) <==> Comparable(v)
  {
    CloneIsSame(v);
    ReflexiveIff(v);
  }

  lemma {:induction false} EqualIsSymmetric(a: Value, b: Value)
    requires Wf(a) && Wf(b) && Equal(a, b)
    ensures Equal(b, a)
    decreases a
  {
    EqualMeans(a, b);
    EqualMeans(b, a);
    if !a.Leaf? {
      hide Equal;
      forall i, j | 0 <= i < |a.children| && 0 <= j < |b.children| && Labels(a)[i] == Labels(b)[j]
        ensures Equal(b.children[j], a.children[i])
      {
        EqualIsSymmetric(a.children[i], b.children[j]);
      }
    }
  }

  lemma {:induction false} EqualIsTransitive(a: Value, b: Value, c: Value)
    requires Wf(a) && Wf(b) && Wf(c) && Equal(a, b) && Equal(b, c)
    ensures Equal(a, c)
    decreases a
  {
    EqualMeans(a, b);
    EqualMeans(b, c);
    EqualMeans(a, c);
    if !a.Leaf? {
      hide Equal;
      forall i, k | 0 <= i < |a.children| && 0 <= k < |c.children| && Labels(a)[i] == Labels(c)[k]
        ensures Equal(a.children[i], c.children[k])
      {
        assert Labels(a)[i] in ToSet(Labels(b));
        var j :| 0 <= j < |b.children| && Labels(b)[j] == Labels(a)[i];
        EqualIsTransitive(a.children[i], b.children[j], c.children[k]);
      }
    }
  }
}
