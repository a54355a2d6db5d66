/** Stock types and the sequence algorithms (`swap_remove`, sorting, filtering) the other modules share. */
module Collections {

  datatype Option<+T> = None | Some(value: T)

  datatype Result<+T, +E> = Ok(value: T) | Err(error: E)

  /** `Vec::swap_remove`: element `i` is replaced by the last one, and the vector gets one shorter. */
  function SwapRemove<T>(s: seq<T>, i: nat): (r: seq<T>)
    requires i < |s|
    ensures |r| == |s| - 1
    ensures forall k :: 0 <= k < |r| ==> r[k] == if k == i then s[|s| - 1] else s[k]
  {
    s[i := s[|s| - 1]][..|s| - 1]
  }

  function ToSet<T>(s: seq<T>): set<T> {
    set x | x in s
  }

  lemma InToSet<T>(s: seq<T>)
    ensures forall k :: 0 <= k < |s| ==> s[k] in ToSet(s)
  {
  }

  lemma EmptyImage<T>(s: seq<T>)
    ensures ToSet(s) == {} <==> s == []
  {
    if s != [] {
      assert s[0] in ToSet(s);
    }
  }

  ghost predicate NoDuplicates<T>(s: seq<T>) {
    forall i, j :: 0 <= i < j < |s| ==> s[i] != s[j]
  }

  /** A list has as many distinct elements as elements iff none is repeated. */
  lemma {:induction false} DistinctCount<T>(s: seq<T>)
    ensures |ToSet(s)| <= |s|
    ensures |ToSet(s)| == |s| <==> NoDuplicates(s)
  {
    if s != [] {
      var n := |s| - 1;
      DistinctCount(s[..n]);
      assert s == s[..n] + [s[n]];
      assert ToSet(s) == ToSet(s[..n]) + {s[n]};
      if s[n] in s[..n] {
        assert ToSet(s) == ToSet(s[..n]);
      } else {
        assert |ToSet(s)| == |ToSet(s[..n])| + 1;
      }
    }
  }

  /** The first position of `x`. */
  function IndexOf<T(==)>(s: seq<T>, x: T): (r: Option<nat>)
    ensures r.Some? ==> r.value < |s| && s[r.value] == x
    ensures r.None? <==> x !in s
  {
    if s == [] then None
    else if s[0] == x then Some(0)
    else
      match IndexOf(s[1..], x)
      case None => None
      case Some(k) => Some(k + 1)
  }

  lemma IndexIsUnique<T>(s: seq<T>, k: nat)
    requires NoDuplicates(s) && k < |s|
    ensures IndexOf(s, s[k]) == Some(k)
  {
    var r := IndexOf(s, s[k]);
    assert s[k] in s;
    assert s[r.value] == s[k];
  }

  /** As many distinct elements, all of them shared: then the two lists have the same elements. */
  lemma Pigeonhole<T>(xs: seq<T>, ys: seq<T>)
    requires NoDuplicates(xs) && NoDuplicates(ys) && |xs| == |ys|
    requires forall y :: y in ys ==> y in xs
    ensures ToSet(xs) == ToSet(ys)
  {
    DistinctCount(xs);
    DistinctCount(ys);
    SubsetOfSameSize(ToSet(ys), ToSet(xs));
  }

  lemma {:induction false} SubsetOfSameSize<T>(a: set<T>, b: set<T>)
    requires a <= b && |a| == |b|
    ensures a == b
  {
    if x :| x in a {
      SubsetOfSameSize(a - {x}, b - {x});
      assert a == (a - {x}) + {x} && b == (b - {x}) + {x};
    } else {
      assert b == {};
    }
  }

  ghost predicate StrictlySorted(s: seq<nat>) {
    forall i, j :: 0 <= i < j < |s| ==> s[i] < s[j]
  }

  /** A strictly sorted list is determined by its set of elements. */
  lemma {:induction false} SortedListsAreCanonical(a: seq<nat>, b: seq<nat>)
    requires StrictlySorted(a) && StrictlySorted(b)
    requires ToSet(a) == ToSet(b)
    ensures a == b
    decreases |a|
  {
    if a == [] {
      assert forall k :: 0 <= k < |b| ==> b[k] in ToSet(b);
    } else {
      assert a[0] in ToSet(a) && a[0] in b;
      assert b[0] in ToSet(b) && b[0] in a;
      forall x
        ensures x in ToSet(a[1..]) <==> x in ToSet(b[1..])
      {
        assert x in a[1..] <==> x in a && x != a[0];
        assert x in b[1..] <==> x in b && x != b[0];
        assert x in a <==> x in ToSet(a);
        assert x in b <==> x in ToSet(b);
      }
      SortedListsAreCanonical(a[1..], b[1..]);
      assert a == [a[0]] + a[1..];
      assert b == [b[0]] + b[1..];
    }
  }

  function InsertSorted(x: nat, s: seq<nat>): (r: seq<nat>)
    requires StrictlySorted(s) && x !in s
    ensures StrictlySorted(r) && ToSet(r) == {x} + ToSet(s)
  {
    if s == [] then
      [x]
    else if x < s[0] then
      assert forall y :: y in s ==> s[0] <= y;
      SortedCons(x, s);
      [x] + s
    else
      var rest := InsertSorted(x, s[1..]);
      InsertedBehind(x, s, rest);
      [s[0]] + rest
  }

  lemma SortedCons(x: nat, s: seq<nat>)
    requires StrictlySorted(s) && forall y :: y in s ==> x < y
    ensures StrictlySorted([x] + s) && ToSet([x] + s) == {x} + ToSet(s)
  {
    var r := [x] + s;
    forall i, j | 0 <= i < j < |r|
      ensures r[i] < r[j]
    {
      assert r[j] == s[j - 1] && s[j - 1] in s;
    }
  }

  lemma InsertedBehind(x: nat, s: seq<nat>, rest: seq<nat>)
    requires s != [] && StrictlySorted(s) && s[0] < x
    requires StrictlySorted(rest) && ToSet(rest) == {x} + ToSet(s[1..])
    ensures StrictlySorted([s[0]] + rest) && ToSet([s[0]] + rest) == {x} + ToSet(s)
  {
    forall y | y in rest
      ensures s[0] < y
    {
      assert y in ToSet(rest);
    }
    SortedCons(s[0], rest);
    assert s == [s[0]] + s[1..];
  }

  /** `sort_unstable` on a list without repetitions. */
  function Sort(s: seq<nat>): (r: seq<nat>)
    requires NoDuplicates(s)
    ensures StrictlySorted(r) && ToSet(r) == ToSet(s)
  {
    if s == [] then
      []
    else
      var rest := Sort(s[1..]);
      assert forall y :: y in s <==> y == s[0] || y in s[1..];
      assert forall y :: y in rest <==> y in ToSet(rest);
      InsertSorted(s[0], rest)
  }

  /** The elements of `s` outside `t`, in order. */
  function Without(s: seq<nat>, t: set<nat>): (r: seq<nat>)
    ensures ToSet(r) == ToSet(s) - t
    ensures forall k :: 0 <= k < |r| ==> r[k] in s && r[k] !in t
  {
    if s == [] then
      []
    else
      assert forall y :: y in s <==> y == s[0] || y in s[1..];
      var rest := Without(s[1..], t);
      assert forall y :: y in rest <==> y in ToSet(rest);
      if s[0] in t then rest
      else
        assert forall y :: y in [s[0]] + rest <==> y == s[0] || y in rest;
        [s[0]] + rest
  }

  lemma {:induction false} WithoutSnoc(s: seq<nat>, x: nat, t: set<nat>)
    ensures Without(s + [x], t) == Without(s, t) + if x in t then [] else [x]
  {
    if s == [] {
      assert s + [x] == [x];
    } else {
      assert (s + [x])[1..] == s[1..] + [x];
      WithoutSnoc(s[1..], x, t);
    }
  }

  lemma {:induction false} WithoutKeepsOrder(s: seq<nat>, t: set<nat>)
    requires StrictlySorted(s)
    ensures StrictlySorted(Without(s, t))
  {
    if s != [] {
      WithoutKeepsOrder(s[1..], t);
      var rest := Without(s[1..], t);
      forall k | 0 <= k < |rest|
        ensures s[0] < rest[k]
      {
        assert rest[k] in s[1..];
      }
    }
  }

  lemma {:induction false} WithoutHasNoDuplicates(s: seq<nat>, t: set<nat>)
    requires NoDuplicates(s)
    ensures NoDuplicates(Without(s, t))
  {
    if s != [] {
      WithoutHasNoDuplicates(s[1..], t);
      var rest := Without(s[1..], t);
      forall k | 0 <= k < |rest|
        ensures s[0] != rest[k]
      {
        assert rest[k] in s[1..];
      }
    }
  }
}
