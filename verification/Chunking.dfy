/**
  Splitting a slice into chunks, one task each (`par_chunk_map`, `par_splat_map` and their `_mut` forms),
  and the batch size of parallel iteration. Lengths are `usize` values.
 */
module Chunking {
  import opened Collections
  import opened TaskScope

  const USIZE_MAX: nat := 0xFFFF_FFFF_FFFF_FFFF

  /** The panics of this code. */
  datatype Failure = DivisionByZero | EmptyTaskPool | Overflow

  // ---- chunks --------------------------------------------------------------------------------

  /** `slice::chunks`: chunks of the given size, the last one possibly shorter. */
  function Chunks<T>(s: seq<T>, size: nat): (r: seq<seq<T>>)
    requires size > 0
    decreases |s|
  {
    if s == [] then []
    else if |s| <= size then [s]
    else [s[..size]] + Chunks(s[size..], size)
  }

  function Flatten<T>(ss: seq<seq<T>>): seq<T> {
    if ss == [] then [] else ss[0] + Flatten(ss[1..])
  }

  /** Rounding up. */
  function CeilDiv(n: nat, d: nat): nat
    requires d > 0
  {
    (n + d - 1) / d
  }

  /** Nothing is lost, duplicated or reordered; no chunk is empty or too long. */
  lemma FlattenCons<T>(chunk: seq<T>, rest: seq<seq<T>>)
    ensures Flatten([chunk] + rest) == chunk + Flatten(rest)
  {
    assert ([chunk] + rest)[1..] == rest;
  }

  /** The chunks of `s`: full ones up to the last, which is not empty. */
  ghost predicate Partitions<T>(chunks: seq<seq<T>>, s: seq<T>, size: nat) {
    && Flatten(chunks) == s
    && (forall k :: 0 <= k < |chunks| ==> 0 < |chunks[k]| <= size)
    && (forall k :: 0 <= k < |chunks| - 1 ==> |chunks[k]| == size)
  }

  lemma PartitionGrows<T>(chunks: seq<seq<T>>, s: seq<T>, size: nat)
    requires 0 < size < |s| && Partitions(chunks, s[size..], size)
    ensures Partitions([s[..size]] + chunks, s, size)
  {
    FlattenCons(s[..size], chunks);
    assert s == s[..size] + s[size..];
    forall k | 0 <= k < |chunks|
      ensures ([s[..size]] + chunks)[k + 1] == chunks[k]
    {
    }
    assert chunks != [];
  }

  lemma {:induction false} ChunksPartition<T>(s: seq<T>, size: nat)
    requires size > 0
    ensures Partitions(Chunks(s, size), s, size)
    decreases |s|
  {
    if s == [] {
    } else if |s| <= size {
      assert Flatten([s]) == s + Flatten([]);
    } else {
      hide Partitions;
      ChunksPartition(s[size..], size);
      PartitionGrows(Chunks(s[size..], size), s, size);
    }
  }

  lemma DivStep(n: nat, d: nat)
    requires 0 < d < n
    ensures CeilDiv(n, d) == CeilDiv(n - d, d) + 1
  {
    assert (n - d + d - 1) / d + 1 == (n + d - 1) / d by {
      DivPlusOne(n - 1, d);
    }
  }

  lemma DivPlusOne(n: nat, d: nat)
    requires d > 0
    ensures (n + d) / d == n / d + 1
  {
    var q, r := n / d, n % d;
    assert n + d == (q + 1) * d + r;
    DivIs(n + d, d, q + 1, r);
  }

  lemma MulMonotone(a: nat, b: nat, c: nat)
    requires a <= b
    ensures a * c <= b * c
  {
    assert b * c == a * c + (b - a) * c;
  }

  /** `n / d` is the greatest k with k * d <= n. */
  lemma FloorIsGreatest(n: nat, d: nat, k: nat)
    requires d > 0
    ensures k <= n / d <==> k * d <= n
  {
    var q, r := n / d, n % d;
    assert n == q * d + r;
    if k <= q {
      MulMonotone(k, q, d);
    } else {
      MulMonotone(q + 1, k, d);
      assert (q + 1) * d == q * d + d;
    }
  }

  /** `CeilDiv(n, d)` is the least k with n <= k * d. */
  lemma CeilIsLeast(n: nat, d: nat, k: nat)
    requires d > 0
    ensures CeilDiv(n, d) <= k <==> n <= k * d
  {
    var c, e := (n + d - 1) / d, (n + d - 1) % d;
    assert n + d - 1 == c * d + e;
    if c <= k {
      MulMonotone(c, k, d);
    } else {
      MulMonotone(k + 1, c, d);
      assert (k + 1) * d == k * d + d;
    }
  }

  lemma DivIs(n: nat, d: nat, q: nat, r: nat)
    requires d > 0 && n == q * d + r && r < d
    ensures n / d == q && n % d == r
  {
    FloorIsGreatest(n, d, q);
    FloorIsGreatest(n, d, q + 1);
    assert (q + 1) * d == q * d + d;
  }

  lemma {:induction false} ChunkCount<T>(s: seq<T>, size: nat)
    requires size > 0
    ensures |Chunks(s, size)| == CeilDiv(|s|, size)
    decreases |s|
  {
    if s == [] {
      DivIs(size - 1, size, 0, size - 1);
    } else if |s| <= size {
      DivIs(|s| + size - 1, size, 1, |s| - 1);
    } else {
      ChunkCount(s[size..], size);
      DivStep(|s|, size);
    }
  }

  // ---- mapping -------------------------------------------------------------------------------

  function MapChunks<T, R>(f: (nat, seq<T>) -> R, chunks: seq<seq<T>>): seq<R> {
    seq(|chunks|, k requires 0 <= k < |chunks| => f(k, chunks[k]))
  }

  /**
    `par_chunk_map`: the closure of the scope spawns one task per chunk. However the tasks were scheduled, the
    scope returns what mapping the chunks one after the other would have returned.
   */
  lemma ParChunkMapIsSequential<T, R>(slice: seq<T>, size: nat, f: (nat, seq<T>) -> R,
                                      states: seq<State<R>>, actions: seq<Action<R>>)
    requires size > 0
    requires Run(states, actions) && states[|actions|].phase == Returned
    requires |states[|actions|].tasks| == |Chunks(slice, size)|
    requires forall t :: 0 <= t < |states[|actions|].tasks| ==> states[|actions|].tasks[t].spawner == Main
    requires forall t :: 0 <= t < |states[|actions|].tasks| && states[|actions|].tasks[t].outcome.Some?
                         && states[|actions|].tasks[t].outcome.value.Value? ==>
               states[|actions|].tasks[t].outcome.value.value == f(t, Chunks(slice, size)[t])
    ensures states[|actions|].results == MapChunks(f, Chunks(slice, size))
  {
    DirectSpawnsKeepOrder(states, actions);
  }

  // ---- mapping in place ----------------------------------------------------------------------

  function Low(i: nat, size: nat): nat {
    i * size
  }

  function High(n: nat, i: nat, size: nat): nat {
    if Low(i, size) + size <= n then Low(i, size) + size else n
  }

  /** Chunk `i` is a range of the slice. */
  lemma {:induction false} ChunkIsRange<T>(s: seq<T>, size: nat, i: nat)
    requires size > 0 && i < |Chunks(s, size)|
    ensures Low(i, size) < High(|s|, i, size) <= |s|
    ensures Chunks(s, size)[i] == s[Low(i, size)..High(|s|, i, size)]
    decreases |s|
  {
    if |s| > size {
      if i > 0 {
        ChunkIsRange(s[size..], size, i - 1);
        assert i * size == (i - 1) * size + size;
        assert s[size..][Low(i - 1, size)..High(|s| - size, i - 1, size)] == s[Low(i, size)..High(|s|, i, size)];
      } else {
        assert Low(0, size) == 0;
      }
    } else {
      assert i == 0 && Low(0, size) == 0;
    }
  }

  /** Ranges of different chunks do not overlap. */
  lemma RangesAreDisjoint(n: nat, size: nat, i: nat, j: nat)
    requires size > 0 && i != j
    ensures High(n, i, size) <= Low(j, size) || High(n, j, size) <= Low(i, size)
  {
    if i < j {
      MulMonotone(i + 1, j, size);
      assert (i + 1) * size == i * size + size;
    } else {
      MulMonotone(j + 1, i, size);
      assert (j + 1) * size == j * size + size;
    }
  }

  /** Writing a chunk back into its range. */
  method WriteRange<T>(a: array<T>, low: nat, chunk: seq<T>)
    requires low + |chunk| <= a.Length
    modifies a
    ensures a[low..low + |chunk|] == chunk
    ensures forall p :: 0 <= p < a.Length && !(low <= p < low + |chunk|) ==> a[p] == old(a[p])
  {
    for k := 0 to |chunk|
      invariant forall p :: 0 <= p < k ==> a[low + p] == chunk[p]
      invariant forall p :: 0 <= p < a.Length && !(low <= p < low + k) ==> a[p] == old(a[p])
    {
      a[low + k] := chunk[k];
    }
  }

  /** Chunk `i` has been handed to `f`, if `done`, and is untouched otherwise. */
  ghost predicate ChunkState<T, R>(s: seq<T>, now: seq<T>, size: nat, f: (nat, seq<T>) -> (seq<T>, R), i: nat,
                                   done: bool)
    requires |now| == |s| && Low(i, size) <= High(|s|, i, size) <= |s|
  {
    var before, after := s[Low(i, size)..High(|s|, i, size)], now[Low(i, size)..High(|s|, i, size)];
    after == if done then f(i, before).0 else before
  }

  ghost predicate RangesOk(n: nat, size: nat, count: nat) {
    forall i: nat :: i < count ==> Low(i, size) < High(n, i, size) <= n
  }

  ghost predicate ChunkStates<T, R>(s: seq<T>, now: seq<T>, size: nat, f: (nat, seq<T>) -> (seq<T>, R), count: nat,
                                    done: set<nat>)
    requires |now| == |s| && RangesOk(|s|, size, count)
  {
    forall i: nat :: i < count ==> ChunkState(s, now, size, f, i, i in done)
  }

  lemma OneMoreChunk<T, R>(s: seq<T>, before: seq<T>, after: seq<T>, size: nat, f: (nat, seq<T>) -> (seq<T>, R),
                           count: nat, done: set<nat>, i: nat)
    requires size > 0 && |before| == |after| == |s| && RangesOk(|s|, size, count)
    requires ChunkStates(s, before, size, f, count, done) && i < count && i !in done
    requires after[Low(i, size)..High(|s|, i, size)] == f(i, before[Low(i, size)..High(|s|, i, size)]).0
    requires forall p :: 0 <= p < |s| && !(Low(i, size) <= p < High(|s|, i, size)) ==> after[p] == before[p]
    ensures ChunkStates(s, after, size, f, count, done + {i})
  {
    hide Low, High;
    assert ChunkState(s, before, size, f, i, false);
    forall j: nat | j < count
      ensures ChunkState(s, after, size, f, j, j in done + {i})
    {
      assert ChunkState(s, before, size, f, j, j in done);
      if j != i {
        RangesAreDisjoint(|s|, size, i, j);
        assert after[Low(j, size)..High(|s|, j, size)] == before[Low(j, size)..High(|s|, j, size)];
      }
    }
  }

  /** A `&mut [T]` cannot be made longer or shorter. */
  ghost predicate KeepsLength<T(!new), R>(f: (nat, seq<T>) -> (seq<T>, R)) {
    forall i: nat, chunk: seq<T> :: |f(i, chunk).0| == |chunk|
  }

  /** One task: `f` gets chunk `i` and may change it. */
  method RunTask<T(!new), R>(a: array<T>, ghost s: seq<T>, size: nat, f: (nat, seq<T>) -> (seq<T>, R),
                             ghost count: nat, ghost done: set<nat>, i: nat)
    returns (result: R)
    requires size > 0 && |s| == a.Length && RangesOk(|s|, size, count)
    requires ChunkStates(s, a[..], size, f, count, done) && i < count && i !in done
    requires KeepsLength(f)
    modifies a
    ensures ChunkStates(s, a[..], size, f, count, done + {i})
    ensures result == f(i, s[Low(i, size)..High(|s|, i, size)]).1
  {
    hide Low, High;
    var low, high := Low(i, size), High(a.Length, i, size);
    assert ChunkState(s, a[..], size, f, i, false);
    ghost var before := a[..];
    var chunk := f(i, a[low..high]);
    result := chunk.1;
    hide ChunkStates, ChunkState;
    WriteRange(a, low, chunk.0);
    OneMoreChunk(s, before, a[..], size, f, count, done, i);
  }

  /**
    `par_chunk_map_mut`: the tasks change disjoint chunks of one slice, in whatever order they run. Each chunk ends
    up as `f` makes it from what it was before, and the results come in chunk order.
   */
  method ParChunkMapMut<T(!new), R>(a: array<T>, size: nat, f: (nat, seq<T>) -> (seq<T>, R), order: seq<nat>)
    returns (results: seq<R>)
    requires size > 0
    requires NoDuplicates(order) && forall i: nat :: i in order <==> i < |Chunks(a[..], size)|
    requires KeepsLength(f)
    modifies a
    ensures |Chunks(a[..], size)| == |Chunks(old(a[..]), size)| == |results|
    ensures forall i :: 0 <= i < |results| ==>
              (Chunks(a[..], size)[i], results[i]) == f(i, Chunks(old(a[..]), size)[i])
  {
    hide Low, High, Chunks, ChunkStates, ChunkState, RangesOk, KeepsLength;
    ghost var s := a[..];
    var count := |Chunks(a[..], size)|;
    NothingMapped(s, size, f);
    var outcomes: map<nat, R> := map[];
    assert order[..0] == [] && ToSet(order[..0]) == {};
    for k := 0 to |order|
      invariant outcomes.Keys == ToSet(order[..k])
      invariant ChunkStates(s, a[..], size, f, count, ToSet(order[..k]))
      invariant forall i: nat :: i in outcomes && i < count ==> outcomes[i] == MappedRange(s, size, f, i).1
    {
      var i := order[k];
      assert i in order;
      assert order[..k + 1] == order[..k] + [i] && i !in ToSet(order[..k]);
      assert ToSet(order[..k + 1]) == ToSet(order[..k]) + {i};
      var result := RunTask(a, s, size, f, count, ToSet(order[..k]), i);
      outcomes := outcomes[i := result];
    }
    assert order[..|order|] == order;
    assert forall i: nat :: i < count ==> i in order && i in outcomes;
    results := seq(count, i requires 0 <= i < count && i in outcomes => outcomes[i]);
    AllMapped(s, a[..], size, f, outcomes.Keys);
  }

  function MappedRange<T, R>(s: seq<T>, size: nat, f: (nat, seq<T>) -> (seq<T>, R), i: nat): (seq<T>, R)
    requires Low(i, size) <= High(|s|, i, size) <= |s|
  {
    f(i, s[Low(i, size)..High(|s|, i, size)])
  }

  lemma NothingMapped<T, R>(s: seq<T>, size: nat, f: (nat, seq<T>) -> (seq<T>, R))
    requires size > 0
    ensures RangesOk(|s|, size, |Chunks(s, size)|) && ChunkStates(s, s, size, f, |Chunks(s, size)|, {})
  {
    forall i: nat | i < |Chunks(s, size)|
      ensures Low(i, size) < High(|s|, i, size) <= |s|
    {
      ChunkIsRange(s, size, i);
    }
  }

  lemma AllMapped<T, R>(s: seq<T>, now: seq<T>, size: nat, f: (nat, seq<T>) -> (seq<T>, R), done: set<nat>)
    requires size > 0 && |now| == |s| && RangesOk(|s|, size, |Chunks(s, size)|)
    requires ChunkStates(s, now, size, f, |Chunks(s, size)|, done)
    requires forall i: nat :: i < |Chunks(s, size)| ==> i in done
    ensures |Chunks(now, size)| == |Chunks(s, size)|
    ensures forall i: nat :: i < |Chunks(s, size)| ==>
              && Low(i, size) <= High(|s|, i, size) <= |s|
              && Chunks(now, size)[i] == MappedRange(s, size, f, i).0
              && MappedRange(s, size, f, i) == f(i, Chunks(s, size)[i])
  {
    hide Chunks, Low, High, ChunkState, MappedRange, ChunkStates, RangesOk;
    SameChunkCount(s, now, size);
    forall i: nat | i < |Chunks(s, size)|
      ensures Low(i, size) <= High(|s|, i, size) <= |s|
      ensures Chunks(now, size)[i] == MappedRange(s, size, f, i).0
      ensures MappedRange(s, size, f, i) == f(i, Chunks(s, size)[i])
    {
      MappedAt(s, now, size, f, done, i);
    }
  }

  lemma MappedAt<T, R>(s: seq<T>, now: seq<T>, size: nat, f: (nat, seq<T>) -> (seq<T>, R), done: set<nat>, i: nat)
    requires size > 0 && |now| == |s| && RangesOk(|s|, size, |Chunks(s, size)|)
    requires ChunkStates(s, now, size, f, |Chunks(s, size)|, done) && i in done
    requires i < |Chunks(s, size)| == |Chunks(now, size)|
    ensures Low(i, size) < High(|s|, i, size) <= |s|
    ensures Chunks(now, size)[i] == MappedRange(s, size, f, i).0
    ensures MappedRange(s, size, f, i) == f(i, Chunks(s, size)[i])
  {
    hide Chunks, Low, High;
    ChunkIsRange(s, size, i);
    ChunkIsRange(now, size, i);
    assert ChunkState(s, now, size, f, i, true);
  }

  lemma SameChunkCount<T>(s: seq<T>, now: seq<T>, size: nat)
    requires size > 0 && |now| == |s|
    ensures |Chunks(now, size)| == |Chunks(s, size)|
  {
    hide Chunks, CeilDiv;
    ChunkCount(s, size);
    ChunkCount(now, size);
  }

  // ---- the chunk size of par_splat_map ---------------------------------------------------

  /** `par_splat_map`'s chunk size. */
  function SplatChunkSize(n: nat, threads: nat, maxTasks: Option<nat>): Result<nat, Failure> {
    var tasks := if maxTasks.Some? then maxTasks.value else USIZE_MAX;
    if threads == 0 || tasks == 0 then Err(DivisionByZero)
    else
      var larger := if n / threads >= n / tasks then n / threads else n / tasks;
      Ok(if larger >= 1 then larger else 1)
  }

  function SplatLimit(threads: nat, maxTasks: Option<nat>): nat {
    var tasks := if maxTasks.Some? then maxTasks.value else USIZE_MAX;
    if threads <= tasks then threads else tasks
  }

  /** Dividing by less gives more. */
  lemma DivAntitone(n: nat, a: nat, b: nat)
    requires 0 < a <= b
    ensures n / a >= n / b
  {
    var q := n / b;
    FloorIsGreatest(n, b, q);
    MulMonotone(a, b, q);
    assert q * a == a * q && q * b == b * q;
    FloorIsGreatest(n, a, q);
  }

  /**
    With m the smaller of the number of threads and `max_tasks`, the documented "maximum of m chunks" holds
    exactly when the slice is shorter than m or m divides its length; it is never exceeded beyond 2m - 1.
   */
  lemma SplatCount(n: nat, threads: nat, maxTasks: Option<nat>)
    requires SplatChunkSize(n, threads, maxTasks).Ok?
    ensures var m := SplatLimit(threads, maxTasks);
            var count := CeilDiv(n, SplatChunkSize(n, threads, maxTasks).value);
            && m > 0
            && (count <= m <==> n < m || n % m == 0)
            && count <= 2 * m - 1
  {
    var m := SplatLimit(threads, maxTasks);
    SplatSize(n, threads, maxTasks);
    hide CeilDiv, SplatChunkSize, SplatLimit;
    if n < m {
      ShortSlice(n, m);
    } else {
      AtLeastOne(n, m);
      LongSlice(n, m);
    }
  }

  /** The larger of the two quotients is the quotient by the smaller of the two limits. */
  lemma SplatSize(n: nat, threads: nat, maxTasks: Option<nat>)
    requires SplatChunkSize(n, threads, maxTasks).Ok?
    ensures var m := SplatLimit(threads, maxTasks);
            m > 0 && SplatChunkSize(n, threads, maxTasks).value == if n / m >= 1 then n / m else 1
  {
    var tasks := if maxTasks.Some? then maxTasks.value else USIZE_MAX;
    if threads <= tasks {
      DivAntitone(n, threads, tasks);
    } else {
      DivAntitone(n, tasks, threads);
    }
  }

  lemma ShortSlice(n: nat, m: nat)
    requires n < m
    ensures n / m == 0 && CeilDiv(n, 1) == n
  {
    DivIs(n, m, 0, n);
  }

  lemma LongSlice(n: nat, m: nat)
    requires 0 < m <= n && n / m >= 1
    ensures CeilDiv(n, n / m) <= m <==> n % m == 0
    ensures CeilDiv(n, n / m) <= 2 * m - 1
  {
    var q, r := n / m, n % m;
    assert n == m * q + r;
    CountForQuotient(q, m, r);
  }

  lemma AtLeastOne(n: nat, m: nat)
    requires 0 < m <= n
    ensures n / m >= 1
  {
    FloorIsGreatest(n, m, 1);
  }

  /** m full chunks and a remainder r < m that needs up to r more. */
  lemma CountForQuotient(q: nat, m: nat, r: nat)
    requires q > 0 && r < m
    ensures CeilDiv(m * q + r, q) == m + CeilDiv(r, q)
    ensures CeilDiv(r, q) <= r && (CeilDiv(r, q) == 0 <==> r == 0)
  {
    var n := m * q + r;
    var c, e := (r + q - 1) / q, (r + q - 1) % q;
    assert r + q - 1 == c * q + e;
    assert n + q - 1 == (m + c) * q + e by {
      assert (m + c) * q == m * q + c * q;
    }
    DivIs(n + q - 1, q, m + c, e);
    CeilIsLeast(r, q, 0);
    MulMonotone(1, q, r);
    assert r * q == q * r;
    CeilIsLeast(r, q, r);
  }

  /** Seven elements, four threads: chunk size 1 and seven tasks, where at most four were promised. */
  lemma SplatExceedsMaximum()
    ensures SplatChunkSize(7, 4, Some(4)) == Ok(1)
    ensures CeilDiv(7, 1) == 7 > SplatLimit(4, Some(4))
  {
  }

  // ---- batches -------------------------------------------------------------------------------

  datatype BatchingStrategy = BatchingStrategy(start: nat, end: nat, batchesPerThread: nat)

  /** `calc_batch_size`; the item count is only asked for when the limits leave a choice. */
  function CalcBatchSize(b: BatchingStrategy, maxItems: nat, threads: nat): Result<nat, Failure> {
    if b.start >= b.end then Ok(b.start)
    else if threads == 0 then Err(EmptyTaskPool)
    else
      var batches := threads * b.batchesPerThread;
      if batches > USIZE_MAX || maxItems + batches > USIZE_MAX then Err(Overflow)
      else if batches == 0 then Err(if maxItems == 0 then Overflow else DivisionByZero)
      else
        var size := (maxItems + batches - 1) / batches;
        Ok(if size < b.start then b.start else if size > b.end then b.end else size)
  }

  /** The number of batches of a given size needed for so many items. */
  function BatchCount(items: nat, size: nat): nat
    requires items > 0 ==> size > 0
  {
    if items == 0 then 0 else CeilDiv(items, size)
  }

  /** Rounding up keeps the number of batches within threads × batches per thread iff the upper limit does not bind. */
  lemma BatchesFitIff(b: BatchingStrategy, items: nat, threads: nat)
    requires b.start < b.end && CalcBatchSize(b, items, threads).Ok?
    ensures var size := CalcBatchSize(b, items, threads).value;
            var batches := threads * b.batchesPerThread;
            && batches > 0 && (items > 0 ==> size > 0)
            && b.start <= size <= b.end
            && (BatchCount(items, size) <= batches <==> CeilDiv(items, batches) <= b.end)
  {
    var batches := threads * b.batchesPerThread;
    var wanted := CeilDiv(items, batches);
    var size := CalcBatchSize(b, items, threads).value;
    CeilIsLeast(items, batches, wanted);
    if items > 0 {
      AtLeastOne(items + batches - 1, batches);
      if wanted <= b.end {
        CeilIsLeast(items, batches, size);
        assert batches * size == size * batches;
        CeilIsLeast(items, size, batches);
      } else {
        CeilIsLeast(items, batches, b.end);
        assert b.end * batches < items;
        CeilIsLeast(items, b.end, batches);
        assert batches * b.end == b.end * batches;
      }
    } else {
      DivIs(batches - 1, batches, 0, batches - 1);
    }
  }

  /** Batches of this size are within threads times batches per thread. */
  ghost predicate BatchesFit(b: BatchingStrategy, items: nat, threads: nat, size: nat) {
    items > 0 ==> size > 0 && BatchCount(items, size) <= threads * b.batchesPerThread
  }

  lemma BatchesFitFrom(b: BatchingStrategy, items: nat, threads: nat, size: nat)
    requires threads * b.batchesPerThread > 0
    ensures BatchesFit(b, items, threads, size) <==> CeilDiv(items, threads * b.batchesPerThread) <= size
  {
    var batches := threads * b.batchesPerThread;
    CeilIsLeast(items, batches, size);
    assert size * batches == batches * size;
    if size > 0 {
      CeilIsLeast(items, size, batches);
    }
  }

  /**
    A fixed strategy gets its size. Any other gets the least size within its limits for which the batches fit, and
    the upper limit if there is none.
   */
  lemma BatchSizeIsLeast(b: BatchingStrategy, items: nat, threads: nat)
    requires CalcBatchSize(b, items, threads).Ok?
    ensures var size := CalcBatchSize(b, items, threads).value;
            if b.start >= b.end then size == b.start
            else
              && b.start <= size <= b.end
              && (size < b.end ==> BatchesFit(b, items, threads, size))
              && forall s: nat :: b.start <= s < size ==> !BatchesFit(b, items, threads, s)
  {
    if b.start < b.end {
      var size := CalcBatchSize(b, items, threads).value;
      BatchesFitFrom(b, items, threads, size);
      forall s: nat | b.start <= s < size
        ensures !BatchesFit(b, items, threads, s)
      {
        BatchesFitFrom(b, items, threads, s);
      }
    }
  }
}
