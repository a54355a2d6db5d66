/**
  What patching and comparing mean, said of the values alone: children correspond by field name, key or
  position, and nothing here is defined through `TryApply`, `Merge`, `Labels` or `PartialEq`. Each relation is
  shown to have exactly the outcome of the program as its solution.
 */
module ReflectMeanings {
  import opened Collections
  import opened ReflectValues

  ghost predicate SameKind(a: Value, b: Value) {
    || (a.Leaf? && b.Leaf?) || (a.Struct? && b.Struct?) || (a.TupleStruct? && b.TupleStruct?)
    || (a.Tuple? && b.Tuple?) || (a.List? && b.List?) || (a.Array? && b.Array?) || (a.Map? && b.Map?)
  }

  ghost predicate OfKind(v: Value, kind: Kind) {
    match kind
    case LeafKind => v.Leaf?
    case StructKind => v.Struct?
    case TupleStructKind => v.TupleStruct?
    case TupleKind => v.Tuple?
    case ListKind => v.List?
    case ArrayKind => v.Array?
    case MapKind => v.Map?
  }

  ghost predicate Containers(a: Value, b: Value) {
    !a.Leaf? && SameKind(a, b) && Wf(a) && Wf(b)
  }

  /** Child `i` of `a` and child `j` of `b` have the same field name, the same key, or the same position. */
  ghost predicate Counterpart(a: Value, i: nat, b: Value, j: nat)
    requires Containers(a, b) && i < |a.children| && j < |b.children|
  {
    if a.Struct? then a.names[i] == b.names[j] else if a.Map? then a.keys[i] == b.keys[j] else i == j
  }

  /** Child `j` of `b` is in `a` too. */
  ghost predicate HasCounterpart(a: Value, b: Value, j: nat)
    requires Containers(a, b) && j < |b.children|
  {
    exists i :: 0 <= i < |a.children| && Counterpart(a, i, b, j)
  }

  lemma CounterpartIff(a: Value, i: nat, b: Value, j: nat)
    requires Containers(a, b) && i < |a.children| && j < |b.children|
    ensures Counterpart(a, i, b, j) <==> Labels(a)[i] == Labels(b)[j]
  {
  }

  lemma CounterpartIsUnique(a: Value, i: nat, b: Value, j: nat)
    requires Containers(a, b) && i < |a.children| && j < |b.children| && Counterpart(a, i, b, j)
    ensures forall i' :: 0 <= i' < |a.children| && i' != i ==> !Counterpart(a, i', b, j)
    ensures forall j' :: 0 <= j' < |b.children| && j' != j ==> !Counterpart(a, i, b, j')
  {
  }

  // ---- try_apply ---------------------------------------------------------------------------------

  /** The patch can begin: same leaf type, or same kind and, for arrays, same length. */
  ghost predicate Matching(a: Value, b: Value) {
    && SameKind(a, b)
    && (a.Leaf? ==> a.leafType == b.leafType)
    && (a.Array? ==> |a.children| == |b.children|)
  }

  /** The error of a patch that does not begin. */
  ghost predicate Refused(a: Value, b: Value, e: ApplyError)
    requires !Matching(a, b)
  {
    if a.Leaf? then e.MismatchedTypes?
    else if !SameKind(a, b) then e.MismatchedKinds? && OfKind(b, e.fromKind) && OfKind(a, e.toKind)
    else e == DifferentSize(|b.children|, |a.children|)
  }

  /** `c` is `a` with every child that `b` has too replaced, all the way down, and nothing else changed. */
  ghost predicate Covers(a: Value, b: Value, c: Value)
    requires Wf(a) && Wf(b)
    decreases b, 1
  {
    Matching(a, b) && if a.Leaf? then c == b else CoveredBy(a, b, |b.children|, c)
  }

  /** `c` is `a` after the first `n` children of `b`. */
  ghost predicate CoveredBy(a: Value, b: Value, n: nat, c: Value)
    requires Containers(a, b) && n <= |b.children|
    decreases b, 0
  {
    && SameKind(a, c) && |a.children| <= |c.children|
    && (forall i, j :: 0 <= i < |a.children| && 0 <= j < n && Counterpart(a, i, b, j) ==>
          Covers(a.children[i], b.children[j], c.children[i]))
    && (forall i :: 0 <= i < |a.children| && (forall j :: 0 <= j < n ==> !Counterpart(a, i, b, j)) ==>
          c.children[i] == a.children[i])
    && (a.Struct? ==> c.names == a.names)
    && (a.Map? ==> |c.keys| == |c.children| && a.keys <= c.keys)
    && Grown(a, b, n, c)
  }

  /** Lists and maps take in what they do not have. */
  ghost predicate Grown(a: Value, b: Value, n: nat, c: Value)
    requires Containers(a, b) && n <= |b.children| && SameKind(a, c) && |a.children| <= |c.children|
    requires a.Map? ==> |c.keys| == |c.children|
  {
    if a.List? || a.Map? then exists added: seq<nat> :: AreNew(a, b, n, added) && Appended(a, b, added, c)
    else |c.children| == |a.children|
  }

  /** The children of `b` before the `n`-th that have no counterpart in `a`, in order. */
  ghost predicate AreNew(a: Value, b: Value, n: nat, added: seq<nat>)
    requires Containers(a, b) && n <= |b.children|
  {
    && StrictlySorted(added)
    && (forall k :: 0 <= k < |added| ==> added[k] < n)
    && forall j :: 0 <= j < n ==> (j in added <==> !HasCounterpart(a, b, j))
  }

  /** The children behind those of `a` are these children of `b`, with their keys. */
  ghost predicate Appended(a: Value, b: Value, added: seq<nat>, c: Value)
    requires Containers(a, b) && !c.Leaf? && |a.children| <= |c.children| && (c.Map? ==> |c.keys| == |c.children|)
    requires forall k :: 0 <= k < |added| ==> added[k] < |b.children|
  {
    && |c.children| == |a.children| + |added|
    && (forall k :: 0 <= k < |added| ==> c.children[|a.children| + k] == b.children[added[k]])
    && (b.Map? && c.Map? ==> forall k :: 0 <= k < |added| ==> c.keys[|a.children| + k] == b.keys[added[k]])
  }

  /** The patch stops with error `e` and leaves `c`. */
  ghost predicate Stops(a: Value, b: Value, e: ApplyError, c: Value)
    requires Wf(a) && Wf(b)
    decreases b, 1
  {
    if !Matching(a, b) then Refused(a, b, e) && c == a
    else !a.Leaf? && exists i, j :: 0 <= i < |a.children| && 0 <= j < |b.children| && StopsAt(a, i, b, j, e, c)
  }

  /** The first `j` children of `b` are taken, child `j` fails at its counterpart, and the rest is not looked at. */
  ghost predicate StopsAt(a: Value, i: nat, b: Value, j: nat, e: ApplyError, c: Value)
    requires Containers(a, b) && i < |a.children| && j < |b.children|
    decreases b, 0
  {
    && Counterpart(a, i, b, j)
    && !c.Leaf? && |a.children| <= |c.children|
    && Stops(a.children[i], b.children[j], e, c.children[i])
    && CoveredBy(a, b, j, WithChild(c, i, a.children[i]))
  }

  function WithChild(v: Value, i: nat, child: Value): Value
    requires !v.Leaf? && i < |v.children|
  {
    match v
    case Struct(names, children) => Struct(names, children[i := child])
    case TupleStruct(children) => TupleStruct(children[i := child])
    case Tuple(children) => Tuple(children[i := child])
    case List(children) => List(children[i := child])
    case Array(children) => Array(children[i := child])
    case Map(keys, children) => Map(keys, children[i := child])
  }

  ghost predicate Patches(a: Value, b: Value, o: Outcome)
    requires Wf(a) && Wf(b)
  {
    match o.error
    case None => Covers(a, b, o.value)
    case Some(e) => Stops(a, b, e, o.value)
  }

  // ---- one child of the patch at a time ------------------------------------------------------------

  lemma NoneTaken(a: Value, b: Value)
    requires Containers(a, b)
    ensures CoveredBy(a, b, 0, a)
  {
    hide Covers, Counterpart;
    if a.List? || a.Map? {
      assert AreNew(a, b, 0, []) && Appended(a, b, [], a);
    }
  }

  lemma MatchTaken(a: Value, b: Value, n: nat, c: Value, i: nat, v: Value)
    requires Containers(a, b) && n < |b.children| && i < |a.children| && Counterpart(a, i, b, n)
    requires CoveredBy(a, b, n, c) && Covers(a.children[i], b.children[n], v)
    ensures CoveredBy(a, b, n + 1, WithChild(c, i, v))
  {
    CounterpartIsUnique(a, i, b, n);
    MatchAddsNothing(a, b, n, c, i, v);
    hide Covers, Counterpart, Wf, Grown;
  }

  lemma MatchAddsNothing(a: Value, b: Value, n: nat, c: Value, i: nat, v: Value)
    requires Containers(a, b) && n < |b.children| && i < |a.children| && Counterpart(a, i, b, n)
    requires SameKind(a, c) && |a.children| <= |c.children| && (a.Map? ==> |c.keys| == |c.children|)
    requires Grown(a, b, n, c)
    ensures Grown(a, b, n + 1, WithChild(c, i, v))
  {
    hide Counterpart, Wf;
    assert HasCounterpart(a, b, n);
    if a.List? || a.Map? {
      var added: seq<nat> :| AreNew(a, b, n, added) && Appended(a, b, added, c);
      hide HasCounterpart;
      assert AreNew(a, b, n + 1, added) && Appended(a, b, added, WithChild(c, i, v));
    }
  }

  lemma NewOneTaken(a: Value, b: Value, n: nat, c: Value, c': Value)
    requires Containers(a, b) && n < |b.children| && (a.List? || a.Map?)
    requires !HasCounterpart(a, b, n) && CoveredBy(a, b, n, c)
    requires SameKind(c', a) && c'.children == c.children + [b.children[n]]
    requires a.Map? ==> c'.keys == c.keys + [b.keys[n]]
    ensures CoveredBy(a, b, n + 1, c')
  {
    NewOneAdded(a, b, n, c, c');
    hide Covers, Counterpart, Wf, Grown;
    assert forall i :: 0 <= i < |a.children| ==> !Counterpart(a, i, b, n);
  }

  lemma NewOneAdded(a: Value, b: Value, n: nat, c: Value, c': Value)
    requires Containers(a, b) && n < |b.children| && (a.List? || a.Map?)
    requires !HasCounterpart(a, b, n)
    requires SameKind(a, c) && |a.children| <= |c.children| && (a.Map? ==> |c.keys| == |c.children|)
    requires Grown(a, b, n, c)
    requires SameKind(c', a) && c'.children == c.children + [b.children[n]]
    requires a.Map? ==> c'.keys == c.keys + [b.keys[n]]
    ensures Grown(a, b, n + 1, c')
  {
    hide HasCounterpart, Wf;
    var added: seq<nat> :| AreNew(a, b, n, added) && Appended(a, b, added, c);
    assert forall j :: j in added + [n] <==> j in added || j == n;
    assert AreNew(a, b, n + 1, added + [n]) && Appended(a, b, added + [n], c');
  }

  lemma UnknownIgnored(a: Value, b: Value, n: nat, c: Value)
    requires Containers(a, b) && n < |b.children| && !a.List? && !a.Map?
    requires !HasCounterpart(a, b, n)
    requires CoveredBy(a, b, n, c)
    ensures CoveredBy(a, b, n + 1, c)
  {
    hide Covers, Counterpart, Wf;
    assert forall i :: 0 <= i < |a.children| ==> !Counterpart(a, i, b, n);
  }

  // ---- the program's outcome ------------------------------------------------------------------------

  /** The loop state `m` is `a` after the first `n` children of `b`. */
  ghost predicate Took(a: Value, b: Value, n: nat, m: Merged)
    requires Containers(a, b) && n <= |b.children|
  {
    && |m.labels| == |m.children| && Labels(a) <= m.labels
    && (forall k :: |a.children| <= k < |m.labels| ==> m.labels[k] in Labels(b)[..n])
    && CoveredBy(a, b, n, Rebuilt(a, m.labels, m.children))
  }

  /** `m` is what is left after one of the first `n` children of `b` has failed. */
  ghost predicate Broke(a: Value, b: Value, n: nat, m: Merged)
    requires Containers(a, b) && n <= |b.children| && m.error.Some?
  {
    exists i, j :: 0 <= i < |a.children| && 0 <= j < n
                   && StopsAt(a, i, b, j, m.error.value, Rebuilt(a, m.labels, m.children))
  }

  lemma {:induction false} LoopTakes(a: Value, b: Value, n: nat)
    requires Containers(a, b) && n <= |b.children|
    ensures var m := Merge(Grows(a), Labels(a), a.children, Labels(b)[..n], b.children[..n]);
            if m.error.None? then Took(a, b, n, m) else Broke(a, b, n, m)
    decreases b, 0, n
  {
    hide TryApply, CoveredBy, StopsAt, Wf, Labels;
    if n == 0 {
      NoneTaken(a, b);
      RebuiltIsSame(a);
    } else {
      LoopTakes(a, b, n - 1);
      var labels, patch := Labels(b)[..n], b.children[..n];
      assert labels[..n - 1] == Labels(b)[..n - 1] && patch[..n - 1] == b.children[..n - 1];
      var m := Merge(Grows(a), Labels(a), a.children, labels[..n - 1], patch[..n - 1]);
      if m.error.None? {
        RoundTakes(a, b, n - 1, m);
      }
    }
  }

  lemma RebuiltIsSame(a: Value)
    requires Wf(a) && !a.Leaf?
    ensures Rebuilt(a, Labels(a), a.children) == a
  {
    RebuiltSame(a);
  }

  lemma RoundTakes(a: Value, b: Value, n: nat, m: Merged)
    requires Containers(a, b) && n < |b.children|
    requires Took(a, b, n, m) && m.error.None?
    ensures var r := MergeOne(Grows(a), m, Labels(b)[n], b.children[n]);
            if r.error.None? then Took(a, b, n + 1, r) else Broke(a, b, n + 1, r)
    decreases b, 0, n
  {
    hide TryApply, Merge, CoveredBy, Covers, Stops, Counterpart, StopsAt, Wf, Labels, CloneValue, HasCounterpart;
    var l, p := Labels(b)[n], b.children[n];
    CounterpartFound(a, b, n, m);
    ChildrenAreWf(b, n);
    assert Labels(b)[..n + 1] == Labels(b)[..n] + [l];
    var c := Rebuilt(a, m.labels, m.children);
    match IndexOf(m.labels, l) {
      case Some(i) =>
        NotTakenYet(a, i, b, n, c);
        ChildrenAreWf(a, i);
        OutcomeIsRight(a.children[i], p);
        var o := TryApply(a.children[i], p);
        assert WithChild(c, i, o.value) == Rebuilt(a, m.labels, m.children[i := o.value]);
        if o.error.None? {
          MatchTaken(a, b, n, c, i, o.value);
        } else {
          MatchFails(a, b, n, c, i, o.error.value, o.value);
        }
      case None =>
        CloneIsSame(p);
        if Grows(a) {
          if a.Map? {
            LastKey(a, b, n, m);
          }
          NewOneTaken(a, b, n, c, Rebuilt(a, m.labels + [l], m.children + [p]));
        } else {
          UnknownIgnored(a, b, n, c);
        }
    }
  }

  /** The label is looked up in the loop state; what is found is the counterpart in `a`. */
  lemma CounterpartFound(a: Value, b: Value, n: nat, m: Merged)
    requires Containers(a, b) && n < |b.children| && Took(a, b, n, m)
    ensures match IndexOf(m.labels, Labels(b)[n])
            case Some(i) => i < |a.children| && Counterpart(a, i, b, n)
            case None => !HasCounterpart(a, b, n)
  {
    hide CoveredBy, Wf, Labels;
    LabelsAreDistinct(b);
    assert Labels(b)[n] !in Labels(b)[..n];
    match IndexOf(m.labels, Labels(b)[n]) {
      case Some(i) =>
        assert i < |a.children| && Labels(a)[i] == m.labels[i];
        CounterpartIff(a, i, b, n);
      case None =>
        forall i | 0 <= i < |a.children|
          ensures !Counterpart(a, i, b, n)
        {
          CounterpartIff(a, i, b, n);
          assert m.labels[i] == Labels(a)[i];
        }
    }
  }

  lemma MatchFails(a: Value, b: Value, n: nat, c: Value, i: nat, e: ApplyError, v: Value)
    requires Containers(a, b) && n < |b.children| && i < |a.children| && Counterpart(a, i, b, n)
    requires CoveredBy(a, b, n, c)
    requires Wf(a.children[i]) && Wf(b.children[n]) && Stops(a.children[i], b.children[n], e, v)
    ensures StopsAt(a, i, b, n, e, WithChild(c, i, v))
  {
    NotTakenYet(a, i, b, n, c);
    hide Covers, Stops, Counterpart, Wf;
    assert |a.children| <= |c.children| && !c.Leaf?;
    hide CoveredBy;
    assert c.children[i := v][i := a.children[i]] == c.children;
    assert WithChild(WithChild(c, i, v), i, a.children[i]) == c;
  }

  lemma LastKey(a: Value, b: Value, n: nat, m: Merged)
    requires Containers(a, b) && n < |b.children| && a.Map? && |m.labels| == |m.children|
    ensures KeysOf(m.labels + [Labels(b)[n]]) == KeysOf(m.labels) + [b.keys[n]]
  {
  }

  /** The counterpart of child `n` is as it was. */
  lemma NotTakenYet(a: Value, i: nat, b: Value, n: nat, c: Value)
    requires Containers(a, b) && n < |b.children| && i < |a.children| && Counterpart(a, i, b, n)
    requires CoveredBy(a, b, n, c)
    ensures c.children[i] == a.children[i]
  {
    CounterpartIsUnique(a, i, b, n);
  }

  /** `TryApply` patches as the relation says. */
  lemma {:induction false} OutcomeIsRight(a: Value, b: Value)
    requires Wf(a) && Wf(b)
    ensures Patches(a, b, TryApply(a, b))
    decreases b, 1
  {
    hide Merge, CoveredBy, StopsAt, Wf, Labels;
    if a.Leaf? {
      CloneIsSame(b);
    } else if Matching(a, b) {
      var n := |b.children|;
      LoopTakes(a, b, n);
      assert Labels(b)[..n] == Labels(b) && b.children[..n] == b.children;
    }
  }

  // ---- and it is the only one ------------------------------------------------------------------------

  lemma {:induction false} CoversOnce(a: Value, b: Value, c: Value, d: Value)
    requires Wf(a) && Wf(b) && Covers(a, b, c) && Covers(a, b, d)
    ensures c == d
    decreases b, 1
  {
    if !a.Leaf? && !b.Leaf? {
      CoveredOnce(a, b, |b.children|, c, d);
    }
  }

  lemma {:induction false} CoveredOnce(a: Value, b: Value, n: nat, c: Value, d: Value)
    requires Containers(a, b) && n <= |b.children|
    requires CoveredBy(a, b, n, c) && CoveredBy(a, b, n, d)
    ensures c == d
    decreases b, 0
  {
    hide Covers, Counterpart, Wf;
    forall i | 0 <= i < |a.children|
      ensures c.children[i] == d.children[i]
    {
      if j :| 0 <= j < n && Counterpart(a, i, b, j) {
        ChildrenAreWf(a, i);
        ChildrenAreWf(b, j);
        assert Covers(a.children[i], b.children[j], c.children[i]);
        assert Covers(a.children[i], b.children[j], d.children[i]);
        CoversOnce(a.children[i], b.children[j], c.children[i], d.children[i]);
      }
    }
    if a.List? || a.Map? {
      SameAdditions(a, b, n, c, d);
    }
    SameParts(a, c, d);
  }

  lemma ChildrenAreWf(v: Value, k: nat)
    requires Wf(v) && !v.Leaf? && k < |v.children|
    ensures Wf(v.children[k])
  {
  }

  lemma SameAdditions(a: Value, b: Value, n: nat, c: Value, d: Value)
    requires Containers(a, b) && n <= |b.children| && (a.List? || a.Map?)
    requires CoveredBy(a, b, n, c) && CoveredBy(a, b, n, d)
    ensures |c.children| == |d.children|
    ensures forall k :: |a.children| <= k < |c.children| ==> c.children[k] == d.children[k]
    ensures a.Map? ==> c.keys == d.keys
  {
    var x := Additions(a, b, n, c);
    var y := Additions(a, b, n, d);
    NewOnesAreUnique(a, b, n, x, y);
    hide CoveredBy, AreNew, Appended, Wf;
    forall k | |a.children| <= k < |c.children|
      ensures c.children[k] == d.children[k]
      ensures a.Map? ==> c.keys[k] == d.keys[k]
    {
      AppendedThere(a, b, x, c, k - |a.children|);
      AppendedThere(a, b, x, d, k - |a.children|);
    }
    if a.Map? {
      KeysOfSame(a, b);
      assert c.keys[..|a.keys|] == a.keys == d.keys[..|a.keys|];
      assert c.keys == d.keys;
    }
  }

  lemma Additions(a: Value, b: Value, n: nat, c: Value) returns (added: seq<nat>)
    requires Containers(a, b) && n <= |b.children| && (a.List? || a.Map?) && CoveredBy(a, b, n, c)
    ensures SameKind(a, c) && |c.children| == |a.children| + |added|
    ensures a.Map? ==> |c.keys| == |c.children| && a.keys <= c.keys
    ensures AreNew(a, b, n, added) && Appended(a, b, added, c)
  {
    hide Covers, Counterpart, HasCounterpart, Wf;
    added :| AreNew(a, b, n, added) && Appended(a, b, added, c);
  }

  lemma AppendedThere(a: Value, b: Value, added: seq<nat>, c: Value, k: nat)
    requires Containers(a, b) && SameKind(a, c) && |a.children| <= |c.children|
    requires a.Map? ==> |c.keys| == |c.children|
    requires forall k :: 0 <= k < |added| ==> added[k] < |b.children|
    requires Appended(a, b, added, c) && k < |added|
    ensures c.children[|a.children| + k] == b.children[added[k]]
    ensures a.Map? ==> c.keys[|a.children| + k] == b.keys[added[k]]
  {
    hide Wf;
  }

  lemma NewOnesAreUnique(a: Value, b: Value, n: nat, x: seq<nat>, y: seq<nat>)
    requires Containers(a, b) && n <= |b.children| && AreNew(a, b, n, x) && AreNew(a, b, n, y)
    ensures x == y
  {
    hide HasCounterpart, Wf;
    assert ToSet(x) == ToSet(y) by {
      assert forall j :: j in x ==> 0 <= j < n && j in y;
      assert forall j :: j in y ==> 0 <= j < n && j in x;
    }
    SortedListsAreCanonical(x, y);
  }

  lemma KeysOfSame(a: Value, b: Value)
    requires Containers(a, b) && a.Map?
    ensures |a.keys| == |a.children| && |b.keys| == |b.children|
  {
  }

  lemma SameParts(a: Value, c: Value, d: Value)
    requires !a.Leaf? && SameKind(a, c) && SameKind(a, d)
    requires |c.children| == |d.children|
    requires forall k :: 0 <= k < |c.children| ==> c.children[k] == d.children[k]
    requires a.Struct? ==> c.names == d.names
    requires a.Map? ==> c.keys == d.keys
    ensures c == d
  {
    assert c.children == d.children;
  }

  lemma StopsSomewhere(a: Value, b: Value, e: ApplyError, c: Value) returns (i: nat, j: nat)
    requires Wf(a) && Wf(b) && Matching(a, b) && Stops(a, b, e, c)
    ensures Containers(a, b) && i < |a.children| && j < |b.children| && Wf(a.children[i]) && Wf(b.children[j])
    ensures StopsAt(a, i, b, j, e, c)
  {
    hide Counterpart, CoveredBy;
    i, j :| i < |a.children| && j < |b.children| && StopsAt(a, i, b, j, e, c);
  }

  lemma CoveredThere(a: Value, b: Value, n: nat, c: Value, i: nat, j: nat)
    requires Containers(a, b) && n <= |b.children| && CoveredBy(a, b, n, c)
    requires i < |a.children| && j < n && Counterpart(a, i, b, j)
    ensures Wf(a.children[i]) && Wf(b.children[j])
    ensures !c.Leaf? && i < |c.children| && Covers(a.children[i], b.children[j], c.children[i])
  {
    hide Covers, Counterpart;
  }

  lemma CoversParts(a: Value, b: Value, c: Value)
    requires Wf(a) && Wf(b) && Covers(a, b, c)
    ensures Matching(a, b) && (!a.Leaf? ==> Containers(a, b) && CoveredBy(a, b, |b.children|, c))
  {
    hide Wf, CoveredBy;
  }

  /** A patch does not both succeed and stop. */
  lemma {:induction false} CoveredDoesNotStop(a: Value, b: Value, c: Value, e: ApplyError, d: Value)
    requires Wf(a) && Wf(b) && Covers(a, b, c)
    ensures !Stops(a, b, e, d)
    decreases b
  {
    hide Covers, Stops, CoveredBy, StopsAt, Counterpart, Wf, Matching;
    if Stops(a, b, e, d) {
      CoversParts(a, b, c);
      var i, j := StopsSomewhere(a, b, e, d);
      StopsThere(a, i, b, j, e, d);
      CoveredThere(a, b, |b.children|, c, i, j);
      CoveredDoesNotStop(a.children[i], b.children[j], c.children[i], e, d.children[i]);
      assert false;
    }
  }

  lemma StopsThere(a: Value, i: nat, b: Value, j: nat, e: ApplyError, c: Value)
    requires Containers(a, b) && i < |a.children| && j < |b.children| && StopsAt(a, i, b, j, e, c)
    ensures Wf(a.children[i]) && Wf(b.children[j]) && Counterpart(a, i, b, j) && !c.Leaf? && i < |c.children|
    ensures Stops(a.children[i], b.children[j], e, c.children[i])
    ensures CoveredBy(a, b, j, WithChild(c, i, a.children[i]))
  {
    hide Stops, CoveredBy, Counterpart;
  }

  lemma {:induction false} StopsOnce(a: Value, b: Value, e: ApplyError, c: Value, e': ApplyError, c': Value)
    requires Wf(a) && Wf(b) && Stops(a, b, e, c) && Stops(a, b, e', c')
    ensures e == e' && c == c'
    decreases b
  {
    hide CoveredBy, Counterpart, Wf, WithChild, StopsAt;
    if Matching(a, b) {
      var i, j := StopsSomewhere(a, b, e, c);
      var i', j' := StopsSomewhere(a, b, e', c');
      StopsFirst(a, b, i, j, e, c, i', j', e', c');
      StopsFirst(a, b, i', j', e', c', i, j, e, c);
      StopsThere(a, i, b, j, e, c);
      StopsThere(a, i', b, j', e', c');
      CounterpartIsUnique(a, i, b, j);
      StopsOnce(a.children[i], b.children[j], e, c.children[i], e', c'.children[i]);
      CoveredOnce(a, b, j, WithChild(c, i, a.children[i]), WithChild(c', i, a.children[i]));
      Restored(a, c, c', i);
    }
  }

  /** The child that fails is the first that can. */
  lemma StopsFirst(a: Value, b: Value, i: nat, j: nat, e: ApplyError, c: Value, i': nat, j': nat, e': ApplyError,
                   c': Value)
    requires Containers(a, b) && i < |a.children| && j < |b.children| && i' < |a.children| && j' < |b.children|
    requires StopsAt(a, i, b, j, e, c) && StopsAt(a, i', b, j', e', c')
    ensures j' <= j
  {
    hide CoveredBy, Counterpart, Wf, WithChild, Covers, Stops;
    if j < j' {
      var w := WithChild(c', i', a.children[i']);
      CoveredThere(a, b, j', w, i, j);
      CoveredDoesNotStop(a.children[i], b.children[j], w.children[i], e, c.children[i]);
      assert false;
    }
  }

  lemma Restored(a: Value, c: Value, c': Value, i: nat)
    requires !a.Leaf? && i < |a.children| && !c.Leaf? && !c'.Leaf?
    requires i < |c.children| && i < |c'.children| && c.children[i] == c'.children[i]
    requires WithChild(c, i, a.children[i]) == WithChild(c', i, a.children[i])
    ensures c == c'
  {
    assert c.children == WithChild(c, i, a.children[i]).children[i := c.children[i]];
    assert c'.children == WithChild(c', i, a.children[i]).children[i := c.children[i]];
  }

  /** The value and the error a patch leaves, said without the program: there is exactly one such outcome. */
  lemma PatchesIff(a: Value, b: Value, o: Outcome)
    requires Wf(a) && Wf(b)
    ensures Patches(a, b, o) <==> o == TryApply(a, b)
  {
    OutcomeIsRight(a, b);
    var t := TryApply(a, b);
    hide TryApply, Covers, Stops;
    if Patches(a, b, o) {
      match (o.error, t.error) {
        case (None, None) => CoversOnce(a, b, o.value, t.value);
        case (Some(e), Some(e')) => StopsOnce(a, b, e, o.value, e', t.value);
        case (None, Some(e)) => CoveredDoesNotStop(a, b, o.value, e, t.value);
        case (Some(e), None) => CoveredDoesNotStop(a, b, t.value, e, o.value);
      }
    }
  }

  // ---- a patch with the same labels throughout -----------------------------------------------------

  /** Same leaf types and kinds, and the same names, keys and positions, at every level. */
  ghost predicate SameShape(a: Value, b: Value)
    requires Wf(a) && Wf(b)
    decreases b
  {
    if a.Leaf? || b.Leaf? then a.Leaf? && b.Leaf? && a.leafType == b.leafType
    else
      && SameKind(a, b) && |a.children| == |b.children|
      && (forall j :: 0 <= j < |b.children| ==> HasCounterpart(a, b, j))
      && forall i, j :: 0 <= i < |a.children| && 0 <= j < |b.children| && Counterpart(a, i, b, j) ==>
           SameShape(a.children[i], b.children[j])
  }

  /** The two trees differ in the order of fields and keys at most. */
  ghost predicate SameUpToOrder(c: Value, b: Value)
    decreases b
  {
    if c.Leaf? || b.Leaf? then c == b
    else
      && Containers(c, b) && |c.children| == |b.children|
      && (forall j :: 0 <= j < |b.children| ==> HasCounterpart(c, b, j))
      && forall i, j :: 0 <= i < |c.children| && 0 <= j < |b.children| && Counterpart(c, i, b, j) ==>
           SameUpToOrder(c.children[i], b.children[j])
  }

  lemma {:induction false} SameShapeDoesNotStop(a: Value, b: Value, e: ApplyError, c: Value)
    requires Wf(a) && Wf(b) && SameShape(a, b)
    ensures !Stops(a, b, e, c)
    decreases b
  {
    hide Stops, CoveredBy, Counterpart, Wf, StopsAt, HasCounterpart;
    if Stops(a, b, e, c) {
      var i, j := StopsSomewhere(a, b, e, c);
      StopsThere(a, i, b, j, e, c);
      SameShapeDoesNotStop(a.children[i], b.children[j], e, c.children[i]);
      assert false;
    }
  }

  lemma {:induction false} CoverIsPatch(a: Value, b: Value, c: Value)
    requires Wf(a) && Wf(b) && Wf(c) && SameShape(a, b) && Covers(a, b, c)
    ensures SameUpToOrder(c, b)
    decreases b
  {
    hide Counterpart, HasCounterpart, Wf, CoveredBy;
    if !a.Leaf? {
      NothingIsNew(a, b, c);
      forall j | 0 <= j < |b.children|
        ensures HasCounterpart(c, b, j)
      {
        CounterpartStays(a, b, c, j);
      }
      forall i, j | 0 <= i < |c.children| && 0 <= j < |b.children| && Counterpart(c, i, b, j)
        ensures SameUpToOrder(c.children[i], b.children[j])
      {
        CounterpartWas(a, b, c, i, j);
        CoveredThere(a, b, |b.children|, c, i, j);
        ChildrenAreWf(c, i);
        CoverIsPatch(a.children[i], b.children[j], c.children[i]);
      }
    }
  }

  lemma CounterpartStays(a: Value, b: Value, c: Value, j: nat)
    requires Containers(a, b) && Wf(c) && CoveredBy(a, b, |b.children|, c)
    requires j < |b.children| && HasCounterpart(a, b, j)
    ensures HasCounterpart(c, b, j)
  {
    hide Covers;
    var i :| 0 <= i < |a.children| && Counterpart(a, i, b, j);
    assert Counterpart(c, i, b, j);
  }

  lemma CounterpartWas(a: Value, b: Value, c: Value, i: nat, j: nat)
    requires Containers(a, b) && Wf(c) && CoveredBy(a, b, |b.children|, c)
    requires i < |a.children| && i < |c.children| && j < |b.children| && Counterpart(c, i, b, j)
    ensures Counterpart(a, i, b, j)
  {
    hide Covers;
  }

  lemma NewHasNone(a: Value, b: Value, n: nat, added: seq<nat>, k: nat)
    requires Containers(a, b) && n <= |b.children| && AreNew(a, b, n, added) && k < |added|
    ensures added[k] < n && !HasCounterpart(a, b, added[k])
  {
    assert added[k] in added;
  }

  lemma NothingIsNew(a: Value, b: Value, c: Value)
    requires Containers(a, b) && SameShape(a, b) && CoveredBy(a, b, |b.children|, c)
    ensures SameKind(a, c) && |c.children| == |a.children|
  {
    hide Counterpart, HasCounterpart, Covers;
    if a.List? || a.Map? {
      var added: seq<nat> :| AreNew(a, b, |b.children|, added) && Appended(a, b, added, c);
      if added != [] {
        NewHasNone(a, b, |b.children|, added, 0);
        assert false;
      }
    }
  }

  /** A patch of the same shape replaces everything: what is left is the patch, up to the order of fields and keys. */
  lemma {:induction false} PatchOfSameShape(a: Value, b: Value)
    requires Wf(a) && Wf(b) && SameShape(a, b)
    ensures TryApply(a, b).error.None? && SameUpToOrder(TryApply(a, b).value, b)
  {
    OutcomeIsRight(a, b);
    PatchKeepsWf(a, b);
    var o := TryApply(a, b);
    hide TryApply, Covers, Stops, Wf, SameShape;
    match o.error {
      case None => CoverIsPatch(a, b, o.value);
      case Some(e) =>
        SameShapeDoesNotStop(a, b, e, o.value);
        assert false;
    }
  }

  // ---- reflect_partial_eq ----------------------------------------------------------------------------

  /**
    The comparison has no answer: a leaf of `a` has no `PartialEq`, or the first pair of children that does not
    compare equal has no answer itself. The children are taken in the order of `b`, those of maps in that of `a`.
   */
  ghost predicate Undecided(a: Value, b: Value)
    requires Wf(a) && Wf(b)
    decreases a
  {
    if a.Leaf? then !a.leafType.comparable
    else
      && SameKind(a, b) && |a.children| == |b.children|
      && exists i, j :: 0 <= i < |a.children| && 0 <= j < |b.children| && Counterpart(a, i, b, j)
                        && Undecided(a.children[i], b.children[j]) && EqualUpTo(a, b, if a.Map? then i else j)
  }

  /** The first `k` children each have a counterpart that is equal. */
  ghost predicate EqualUpTo(a: Value, b: Value, k: nat)
    requires Containers(a, b) && |a.children| == |b.children| && k <= |a.children|
  {
    forall m :: 0 <= m < k ==> EqualRound(a, b, m)
  }

  ghost predicate EqualRound(a: Value, b: Value, m: nat)
    requires Containers(a, b) && |a.children| == |b.children| && m < |a.children|
  {
    exists i, j :: 0 <= i < |a.children| && 0 <= j < |b.children| && Counterpart(a, i, b, j)
                   && (if a.Map? then i else j) == m && Equal(a.children[i], b.children[j])
  }

  lemma EqualRoundIff(a: Value, b: Value, m: nat)
    requires Containers(a, b) && |a.children| == |b.children| && m < |a.children|
    ensures EqualRound(a, b, m) <==> RoundEqual(a, b, m)
  {
    hide Equal, Counterpart, Wf;
    if EqualRound(a, b, m) {
      var i, j :| 0 <= i < |a.children| && 0 <= j < |b.children| && Counterpart(a, i, b, j)
                  && (if a.Map? then i else j) == m && Equal(a.children[i], b.children[j]);
      PairFound(a, b, i, j);
    }
    if RoundEqual(a, b, m) {
      var (i, j) := Pair(a, b, m).value;
      CounterpartIff(a, i, b, j);
    }
  }

  /** Round `m` compares the pair of counterparts it names. */
  lemma PairFound(a: Value, b: Value, i: nat, j: nat)
    requires Containers(a, b) && |a.children| == |b.children| && i < |a.children| && j < |b.children|
    requires Counterpart(a, i, b, j)
    ensures Pair(a, b, if a.Map? then i else j) == Some((i, j))
  {
    CounterpartIff(a, i, b, j);
    LabelsAreDistinct(a);
    LabelsAreDistinct(b);
    hide Counterpart, Labels, Wf;
    IndexIsUnique(Labels(a), i);
    IndexIsUnique(Labels(b), j);
  }

  /** The rounds from `k` on have no answer exactly if the first one that is not equal has none. */
  lemma {:induction false} RoundsUndecided(a: Value, b: Value, k: nat)
    requires Containers(a, b) && |a.children| == |b.children| && k <= |a.children|
    ensures PartialEqFrom(a, b, k).None?
            <==> exists m :: k <= m < |a.children| && RoundUndecided(a, b, m)
                             && forall l :: k <= l < m ==> RoundEqual(a, b, l)
    decreases |a.children| - k
  {
    hide PartialEq, Pair, Labels, Wf;
    if k < |a.children| {
      RoundsUndecided(a, b, k + 1);
      if RoundEqual(a, b, k) {
        assert PartialEqFrom(a, b, k) == PartialEqFrom(a, b, k + 1);
      } else {
        assert PartialEqFrom(a, b, k).None? <==> RoundUndecided(a, b, k);
      }
    }
  }

  ghost predicate RoundUndecided(a: Value, b: Value, m: nat)
    requires !a.Leaf? && !b.Leaf? && |a.children| == |b.children| && m < |a.children|
  {
    Pair(a, b, m).Some? && PartialEq(a.children[Pair(a, b, m).value.0], b.children[Pair(a, b, m).value.1]).None?
  }

  lemma RoundPair(a: Value, b: Value, m: nat) returns (i: nat, j: nat)
    requires Containers(a, b) && |a.children| == |b.children| && m < |a.children| && RoundUndecided(a, b, m)
    ensures i < |a.children| && j < |b.children| && Counterpart(a, i, b, j) && m == if a.Map? then i else j
  {
    hide PartialEq, Wf, Counterpart;
    i, j := Pair(a, b, m).value.0, Pair(a, b, m).value.1;
    CounterpartIff(a, i, b, j);
  }

  lemma ChildrenWf(v: Value)
    requires Wf(v) && !v.Leaf?
    ensures forall k :: 0 <= k < |v.children| ==> Wf(v.children[k])
  {
  }

  /** Some round has no answer and all before it are equal. */
  ghost predicate StuckAt(a: Value, b: Value, m: nat)
    requires Containers(a, b) && |a.children| == |b.children| && m < |a.children|
  {
    RoundUndecided(a, b, m) && EqualUpTo(a, b, m)
  }

  lemma StuckIff(a: Value, b: Value)
    requires Containers(a, b) && |a.children| == |b.children|
    ensures PartialEq(a, b).None? <==> exists m :: 0 <= m < |a.children| && StuckAt(a, b, m)
  {
    hide Wf, EqualRound, RoundEqual, RoundUndecided;
    RoundsUndecided(a, b, 0);
    forall m | 0 <= m < |a.children|
      ensures EqualRound(a, b, m) <==> RoundEqual(a, b, m)
    {
      EqualRoundIff(a, b, m);
    }
    assert PartialEq(a, b) == PartialEqFrom(a, b, 0);
    hide PartialEq, PartialEqFrom;
    if PartialEq(a, b).None? {
      var m :| 0 <= m < |a.children| && RoundUndecided(a, b, m) && forall l :: 0 <= l < m ==> RoundEqual(a, b, l);
      assert StuckAt(a, b, m);
    }
  }

  /** When the comparison has no answer; `EqualMeans` says when it is `Some(true)`, so all three answers are told. */
  lemma {:induction false} UndecidedIff(a: Value, b: Value)
    requires Wf(a) && Wf(b)
    ensures PartialEq(a, b).None? <==> Undecided(a, b)
    decreases a
  {
    hide Counterpart, Wf, EqualUpTo, RoundUndecided, PartialEqFrom;
    if !a.Leaf? && SameKind(a, b) && |a.children| == |b.children| {
      StuckIff(a, b);
      ChildrenWf(a);
      ChildrenWf(b);
      hide PartialEq;
      forall i, j | 0 <= i < |a.children| && 0 <= j < |b.children| && Counterpart(a, i, b, j)
        ensures Undecided(a.children[i], b.children[j]) <==> RoundUndecided(a, b, if a.Map? then i else j)
      {
        UndecidedIff(a.children[i], b.children[j]);
        PairUndecided(a, b, i, j);
      }
      if PartialEq(a, b).None? {
        var m :| 0 <= m < |a.children| && StuckAt(a, b, m);
        var i, j := RoundPair(a, b, m);
        assert Undecided(a.children[i], b.children[j]);
      }
      if Undecided(a, b) {
        var i, j :| 0 <= i < |a.children| && 0 <= j < |b.children| && Counterpart(a, i, b, j)
                    && Undecided(a.children[i], b.children[j]) && EqualUpTo(a, b, if a.Map? then i else j);
        assert StuckAt(a, b, if a.Map? then i else j);
      }
    }
  }

  lemma PairUndecided(a: Value, b: Value, i: nat, j: nat)
    requires Containers(a, b) && |a.children| == |b.children| && i < |a.children| && j < |b.children|
    requires Counterpart(a, i, b, j)
    ensures RoundUndecided(a, b, if a.Map? then i else j) <==> PartialEq(a.children[i], b.children[j]).None?
  {
    PairFound(a, b, i, j);
  }
}
