/**
  The clock that change detection stands for: time never wraps, and every write, run and scan is an event of a
  history. `Replay` computes what the clock shows; the dates it shows are also told from positions in the
  history alone (`AddDate`, `WriteDate`, `RunDate`, `SeenUntil`), and `HistoryTells` shows that they agree.
 */
module Clocks {
  import opened Collections

  const TWO_TO_32: int := 0x1_0000_0000

  /** The minimum number of increments between two scans. */
  const CHECK_TICK_THRESHOLD: int := 518_400_000

  const MAX_CHANGE_AGE: int := TWO_TO_32 - 1 - (2 * CHECK_TICK_THRESHOLD - 1)

  function Min(a: int, b: int): int {
    if a < b then a else b
  }

  datatype TrueCell = TrueCell(added: int, changed: int)

  datatype TrueSystem = TrueSystem(lastRun: int, thisRun: Option<int>)

  datatype TrueClock = TrueClock(now: int, cells: seq<TrueCell>, systems: seq<TrueSystem>)

  /**
    What happens to a world. A write is made by a running system, or by the world itself (`None`). A check
    cannot see the systems of a schedule that has been taken out of the `Schedules` resource to be run.
   */
  datatype Event =
    | Tick
    | NewSystem
    | Begin(system: nat)
    | End(system: nat)
    | AddCell(writer: Option<nat>)
    | Change(cell: nat, writer: Option<nat>)
    | Check(hidden: set<nat>)

  function WriteTime(k: TrueClock, writer: Option<nat>): int {
    if writer.Some? && writer.value < |k.systems| && k.systems[writer.value].thisRun.Some?
    then k.systems[writer.value].thisRun.value
    else k.now
  }

  /** Checks leave no trace here. */
  function After(k: TrueClock, event: Event): TrueClock {
    match event
    case Tick => k.(now := k.now + 1)
    case NewSystem => k.(systems := k.systems + [TrueSystem(k.now - MAX_CHANGE_AGE, None)])
    case Begin(i) =>
      if i < |k.systems| then
        k.(now := k.now + 1, systems := k.systems[i := k.systems[i].(thisRun := Some(k.now))])
      else k
    case End(i) =>
      if i < |k.systems| && k.systems[i].thisRun.Some? then
        k.(systems := k.systems[i := TrueSystem(k.systems[i].thisRun.value, None)])
      else k
    case AddCell(writer) => k.(cells := k.cells + [TrueCell(WriteTime(k, writer), WriteTime(k, writer))])
    case Change(c, writer) =>
      if c < |k.cells| then k.(cells := k.cells[c := k.cells[c].(changed := WriteTime(k, writer))]) else k
    case Check(_) => k
  }

  /** A new world starts at tick 1. */
  function Replay(history: seq<Event>): TrueClock {
    if history == [] then TrueClock(1, [], [])
    else After(Replay(history[..|history| - 1]), history[|history| - 1])
  }

  lemma ReplaySnoc(history: seq<Event>, event: Event)
    ensures Replay(history + [event]) == After(Replay(history), event)
  {
    assert (history + [event])[..|history|] == history;
  }

  function WithoutChecks(history: seq<Event>): seq<Event> {
    if history == [] then []
    else
      var n := |history| - 1;
      WithoutChecks(history[..n]) + if history[n].Check? then [] else [history[n]]
  }

  lemma {:induction false} ChecksLeaveNoTrace(history: seq<Event>)
    ensures Replay(WithoutChecks(history)) == Replay(history)
  {
    if history != [] {
      var n := |history| - 1;
      ChecksLeaveNoTrace(history[..n]);
      if history[n].Check? {
        assert WithoutChecks(history) == WithoutChecks(history[..n]);
      } else {
        ReplaySnoc(WithoutChecks(history[..n]), history[n]);
      }
    }
  }

  /**
    What change detection is to answer: the change is in the past of this run and is younger than the last
    run, ages of `MAX_CHANGE_AGE` and more counting as equal.
   */
  predicate Newer(time: int, lastRun: int, thisRun: int) {
    time <= thisRun && Min(thisRun - lastRun, MAX_CHANGE_AGE) > Min(thisRun - time, MAX_CHANGE_AGE)
  }

  // ---- histories that can happen -------------------------------------------------------------

  ghost predicate WriterRuns(k: TrueClock, writer: Option<nat>) {
    writer.Some? ==> writer.value < |k.systems| && k.systems[writer.value].thisRun.Some?
  }

  /** Only what exists is named, and only what runs ends or writes. */
  ghost predicate Legal(k: TrueClock, event: Event) {
    match event
    case Begin(i) => i < |k.systems| && k.systems[i].thisRun.None?
    case End(i) => i < |k.systems| && k.systems[i].thisRun.Some?
    case AddCell(writer) => WriterRuns(k, writer)
    case Change(c, writer) => c < |k.cells| && WriterRuns(k, writer)
    case _ => true
  }

  ghost predicate Orderly(history: seq<Event>) {
    forall p :: 0 <= p < |history| ==> Legal(Replay(history[..p]), history[p])
  }

  lemma OrderlySnoc(history: seq<Event>, event: Event)
    requires Orderly(history) && Legal(Replay(history), event)
    ensures Orderly(history + [event])
  {
    hide Replay, Legal;
    var h := history + [event];
    forall p | 0 <= p < |h|
      ensures Legal(Replay(h[..p]), h[p])
    {
      assert h[..p] == history[..p];
      if p == |history| {
        assert history[..p] == history;
      }
    }
  }

  // ---- dates, by positions in the history -----------------------------------------------------

  /** The time before event `n`: each tick and each beginning of a run takes one. */
  function TimeAt(h: seq<Event>, n: nat): int
    requires n <= |h|
  {
    if n == 0 then 1 else TimeAt(h, n - 1) + if h[n - 1].Tick? || h[n - 1].Begin? then 1 else 0
  }

  function SystemsBefore(h: seq<Event>, n: nat): nat
    requires n <= |h|
  {
    if n == 0 then 0 else SystemsBefore(h, n - 1) + if h[n - 1].NewSystem? then 1 else 0
  }

  function CellsBefore(h: seq<Event>, n: nat): nat
    requires n <= |h|
  {
    if n == 0 then 0 else CellsBefore(h, n - 1) + if h[n - 1].AddCell? then 1 else 0
  }

  /** Event `p` makes system `i`. */
  ghost predicate MakesSystem(h: seq<Event>, p: nat, i: nat)
    requires p < |h|
  {
    h[p] == NewSystem && SystemsBefore(h, p) == i
  }

  /** The run of system `i` that began with event `q` is still going on before event `n`. */
  ghost predicate RunSince(h: seq<Event>, q: nat, i: nat, n: nat)
    requires n <= |h|
  {
    q < n && h[q] == Begin(i) && forall r :: q < r < n ==> h[r] != End(i) && h[r] != Begin(i)
  }

  /** Event `e` ended the last run of system `i` before event `n`, and event `q` had begun it. */
  ghost predicate LastRan(h: seq<Event>, q: nat, e: nat, i: nat, n: nat)
    requires n <= |h|
  {
    e < n && h[e] == End(i) && RunSince(h, q, i, e) && forall r :: e < r < n ==> h[r] != End(i)
  }

  /** The run going on before event `n` began at time `t`. */
  ghost predicate RunDate(h: seq<Event>, i: nat, n: nat, t: int)
    requires n <= |h|
  {
    exists q :: 0 <= q < n && RunSince(h, q, i, n) && t == TimeAt(h, q)
  }

  ghost predicate NeverEnded(h: seq<Event>, i: nat, n: nat)
    requires n <= |h|
  {
    forall r :: 0 <= r < n ==> h[r] != End(i)
  }

  /** Its last finished run began at time `t`; before any, it counts as run at the horizon when it was made. */
  ghost predicate SeenUntil(h: seq<Event>, i: nat, n: nat, t: int)
    requires n <= |h|
  {
    if NeverEnded(h, i, n) then exists p :: 0 <= p < n && MakesSystem(h, p, i) && t == TimeAt(h, p) - MAX_CHANGE_AGE
    else exists q, e :: 0 <= q < e < n && LastRan(h, q, e, i, n) && t == TimeAt(h, q)
  }

  /** Event `p` makes cell `c`. */
  ghost predicate MakesCell(h: seq<Event>, p: nat, c: nat)
    requires p < |h|
  {
    h[p].AddCell? && CellsBefore(h, p) == c
  }

  /** Event `p` writes cell `c`, perhaps for the first time. */
  ghost predicate WritesCell(h: seq<Event>, p: nat, c: nat)
    requires p < |h|
  {
    MakesCell(h, p, c) || (h[p].Change? && h[p].cell == c)
  }

  /** A write of a system is dated at the beginning of its run, one of the world at the moment it is made. */
  ghost predicate Dated(h: seq<Event>, p: nat, t: int)
    requires p < |h|
  {
    && (h[p].AddCell? || h[p].Change?)
    && match h[p].writer
       case None => t == TimeAt(h, p)
       case Some(i) => RunDate(h, i, p, t)
  }

  ghost predicate AddDate(h: seq<Event>, c: nat, n: nat, t: int)
    requires n <= |h|
  {
    exists p :: 0 <= p < n && MakesCell(h, p, c) && Dated(h, p, t)
  }

  ghost predicate LastWrite(h: seq<Event>, p: nat, c: nat, n: nat)
    requires n <= |h|
  {
    p < n && WritesCell(h, p, c) && forall r :: p < r < n ==> !WritesCell(h, r, c)
  }

  ghost predicate WriteDate(h: seq<Event>, c: nat, n: nat, t: int)
    requires n <= |h|
  {
    exists p :: 0 <= p < n && LastWrite(h, p, c, n) && Dated(h, p, t)
  }

  // ---- the clock shows these dates --------------------------------------------------------------

  ghost predicate SystemTold(h: seq<Event>, n: nat, i: nat, s: TrueSystem)
    requires n <= |h|
  {
    && SeenUntil(h, i, n, s.lastRun)
    && match s.thisRun
       case Some(t) => RunDate(h, i, n, t)
       case None => forall q :: 0 <= q < n ==> !RunSince(h, q, i, n)
  }

  ghost predicate CellTold(h: seq<Event>, n: nat, c: nat, cell: TrueCell)
    requires n <= |h|
  {
    AddDate(h, c, n, cell.added) && WriteDate(h, c, n, cell.changed)
  }

  ghost predicate Named(h: seq<Event>, n: nat, systems: nat)
    requires n <= |h|
  {
    forall r :: 0 <= r < n ==> (h[r].Begin? || h[r].End? ==> h[r].system < systems)
  }

  /** The clock `k` shows what the first `n` events make it show. */
  ghost predicate Tells(h: seq<Event>, n: nat, k: TrueClock)
    requires n <= |h|
  {
    && k.now == TimeAt(h, n)
    && |k.systems| == SystemsBefore(h, n) && |k.cells| == CellsBefore(h, n) && Named(h, n, |k.systems|)
    && (forall i :: 0 <= i < |k.systems| ==> SystemTold(h, n, i, k.systems[i]))
    && (forall c :: 0 <= c < |k.cells| ==> CellTold(h, n, c, k.cells[c]))
  }

  lemma RunGoesOn(h: seq<Event>, n: nat, i: nat, s: TrueSystem)
    requires n < |h| && SystemTold(h, n, i, s) && h[n] != Begin(i) && h[n] != End(i)
    ensures SystemTold(h, n + 1, i, s)
  {
    LastRunStays(h, n, i, s.lastRun);
    match s.thisRun {
      case Some(t) =>
        var q :| 0 <= q < n && RunSince(h, q, i, n) && t == TimeAt(h, q);
        assert RunSince(h, q, i, n + 1);
      case None =>
        var m := n + 1;
        if q :| 0 <= q < m && RunSince(h, q, i, m) {
          RanBefore(h, n, i, q);
          assert false;
        }
    }
  }

  lemma RanBefore(h: seq<Event>, n: nat, i: nat, q: nat)
    requires n < |h| && h[n] != Begin(i) && RunSince(h, q, i, n + 1)
    ensures q < n && RunSince(h, q, i, n)
  {
  }

  lemma LastRunStays(h: seq<Event>, n: nat, i: nat, t: int)
    requires n < |h| && SeenUntil(h, i, n, t) && h[n] != End(i)
    ensures SeenUntil(h, i, n + 1, t)
  {
    if NeverEnded(h, i, n) {
      assert NeverEnded(h, i, n + 1);
    } else {
      var q, e :| 0 <= q < e < n && LastRan(h, q, e, i, n) && t == TimeAt(h, q);
      assert LastRan(h, q, e, i, n + 1);
    }
  }

  lemma RunBegins(h: seq<Event>, n: nat, i: nat, s: TrueSystem)
    requires n < |h| && SystemTold(h, n, i, s) && h[n] == Begin(i)
    ensures SystemTold(h, n + 1, i, s.(thisRun := Some(TimeAt(h, n))))
  {
    LastRunStays(h, n, i, s.lastRun);
    assert RunSince(h, n, i, n + 1);
  }

  lemma RunEnds(h: seq<Event>, n: nat, i: nat, s: TrueSystem)
    requires n < |h| && SystemTold(h, n, i, s) && h[n] == End(i) && s.thisRun.Some?
    ensures SystemTold(h, n + 1, i, TrueSystem(s.thisRun.value, None))
  {
    var q :| 0 <= q < n && RunSince(h, q, i, n) && s.thisRun.value == TimeAt(h, q);
    assert !NeverEnded(h, i, n + 1);
    assert LastRan(h, q, n, i, n + 1);
  }

  lemma SystemMade(h: seq<Event>, n: nat, i: nat)
    requires n < |h| && h[n] == NewSystem && SystemsBefore(h, n) == i && Named(h, n, i)
    ensures SystemTold(h, n + 1, i, TrueSystem(TimeAt(h, n) - MAX_CHANGE_AGE, None))
  {
    assert NeverEnded(h, i, n + 1);
    assert MakesSystem(h, n, i);
  }

  lemma WriteIsDated(h: seq<Event>, n: nat, k: TrueClock, writer: Option<nat>)
    requires n < |h| && Tells(h, n, k) && WriterRuns(k, writer)
    requires (h[n].AddCell? || h[n].Change?) && h[n].writer == writer
    ensures Dated(h, n, WriteTime(k, writer))
  {
    hide RunDate, SeenUntil, CellTold;
    if writer.Some? {
      assert SystemTold(h, n, writer.value, k.systems[writer.value]);
    }
  }

  lemma CellMade(h: seq<Event>, n: nat, c: nat, t: int)
    requires n < |h| && h[n].AddCell? && CellsBefore(h, n) == c && Dated(h, n, t)
    ensures CellTold(h, n + 1, c, TrueCell(t, t))
  {
    hide Dated;
    assert MakesCell(h, n, c);
    assert LastWrite(h, n, c, n + 1);
  }

  lemma CellWritten(h: seq<Event>, n: nat, c: nat, cell: TrueCell, t: int)
    requires n < |h| && CellTold(h, n, c, cell) && h[n].Change? && h[n].cell == c && Dated(h, n, t)
    ensures CellTold(h, n + 1, c, cell.(changed := t))
  {
    hide Dated;
    assert LastWrite(h, n, c, n + 1);
  }

  lemma CellStays(h: seq<Event>, n: nat, c: nat, cell: TrueCell)
    requires n < |h| && CellTold(h, n, c, cell) && c < CellsBefore(h, n) && !(h[n].Change? && h[n].cell == c)
    ensures CellTold(h, n + 1, c, cell)
  {
    hide Dated;
    var p :| 0 <= p < n && LastWrite(h, p, c, n) && Dated(h, p, cell.changed);
    assert LastWrite(h, p, c, n + 1);
  }

  /** What `Replay` computes is what the positions of the history say. */
  lemma {:induction false} HistoryTells(h: seq<Event>, n: nat)
    requires Orderly(h) && n <= |h|
    ensures Tells(h, n, Replay(h[..n]))
    decreases n
  {
    if n > 0 {
      HistoryTells(h, n - 1);
      assert h[..n][..n - 1] == h[..n - 1] && h[..n] == h[..n - 1] + [h[n - 1]];
      ReplaySnoc(h[..n - 1], h[n - 1]);
      var k := Replay(h[..n - 1]);
      hide Replay;
      SystemsTold(h, n - 1, k);
      CellsTold(h, n - 1, k);
    }
  }

  lemma SystemsTold(h: seq<Event>, n: nat, k: TrueClock)
    requires n < |h| && Tells(h, n, k) && Legal(k, h[n])
    ensures var k' := After(k, h[n]);
            && k'.now == TimeAt(h, n + 1)
            && |k'.systems| == SystemsBefore(h, n + 1) && Named(h, n + 1, |k'.systems|)
            && forall i :: 0 <= i < |k'.systems| ==> SystemTold(h, n + 1, i, k'.systems[i])
  {
    hide SystemTold, CellTold;
    var k' := After(k, h[n]);
    forall i | 0 <= i < |k'.systems|
      ensures SystemTold(h, n + 1, i, k'.systems[i])
    {
      if i == |k.systems| {
        SystemMade(h, n, i);
      } else if h[n] == Begin(i) {
        RunBegins(h, n, i, k.systems[i]);
      } else if h[n] == End(i) {
        RunEnds(h, n, i, k.systems[i]);
      } else {
        RunGoesOn(h, n, i, k.systems[i]);
      }
    }
  }

  lemma CellsTold(h: seq<Event>, n: nat, k: TrueClock)
    requires n < |h| && Tells(h, n, k) && Legal(k, h[n])
    ensures var k' := After(k, h[n]);
            && |k'.cells| == CellsBefore(h, n + 1)
            && forall c :: 0 <= c < |k'.cells| ==> CellTold(h, n + 1, c, k'.cells[c])
  {
    hide SystemTold, CellTold, Dated;
    var k' := After(k, h[n]);
    if h[n].AddCell? || h[n].Change? {
      WriteIsDated(h, n, k, h[n].writer);
    }
    forall c | 0 <= c < |k'.cells|
      ensures CellTold(h, n + 1, c, k'.cells[c])
    {
      if c == |k.cells| {
        CellMade(h, n, c, WriteTime(k, h[n].writer));
      } else if h[n].Change? && h[n].cell == c {
        CellWritten(h, n, c, k.cells[c], WriteTime(k, h[n].writer));
      } else {
        CellStays(h, n, c, k.cells[c]);
      }
    }
  }

  // ---- the dates are determined -----------------------------------------------------------------

  lemma {:induction false} CountsGrow(h: seq<Event>, p: nat, n: nat)
    requires p <= n <= |h|
    ensures TimeAt(h, p) <= TimeAt(h, n)
    ensures SystemsBefore(h, p) <= SystemsBefore(h, n) && CellsBefore(h, p) <= CellsBefore(h, n)
    decreases n
  {
    if p < n {
      CountsGrow(h, p, n - 1);
    }
  }

  lemma MadeOnce(h: seq<Event>, p: nat, q: nat, i: nat)
    requires p < q < |h|
    ensures !(MakesSystem(h, p, i) && MakesSystem(h, q, i))
    ensures !(MakesCell(h, p, i) && MakesCell(h, q, i))
  {
    CountsGrow(h, p + 1, q);
  }

  lemma RunDateIsUnique(h: seq<Event>, i: nat, n: nat, t: int, u: int)
    requires n <= |h| && RunDate(h, i, n, t) && RunDate(h, i, n, u)
    ensures t == u
  {
    var p :| 0 <= p < n && RunSince(h, p, i, n) && t == TimeAt(h, p);
    var q :| 0 <= q < n && RunSince(h, q, i, n) && u == TimeAt(h, q);
    assert p == q;
  }

  lemma SeenUntilIsUnique(h: seq<Event>, i: nat, n: nat, t: int, u: int)
    requires n <= |h| && SeenUntil(h, i, n, t) && SeenUntil(h, i, n, u)
    ensures t == u
  {
    if NeverEnded(h, i, n) {
      var p :| 0 <= p < n && MakesSystem(h, p, i) && t == TimeAt(h, p) - MAX_CHANGE_AGE;
      var q :| 0 <= q < n && MakesSystem(h, q, i) && u == TimeAt(h, q) - MAX_CHANGE_AGE;
      if p != q {
        MadeOnce(h, if p < q then p else q, if p < q then q else p, i);
      }
    } else {
      var q, e :| 0 <= q < e < n && LastRan(h, q, e, i, n) && t == TimeAt(h, q);
      var q', e' :| 0 <= q' < e' < n && LastRan(h, q', e', i, n) && u == TimeAt(h, q');
      assert e == e' && q == q';
    }
  }

  lemma DatedOnce(h: seq<Event>, p: nat, t: int, u: int)
    requires p < |h| && Dated(h, p, t) && Dated(h, p, u)
    ensures t == u
  {
    hide RunDate;
    match h[p].writer {
      case None =>
      case Some(i) => RunDateIsUnique(h, i, p, t, u);
    }
  }

  lemma AddDateIsUnique(h: seq<Event>, c: nat, n: nat, t: int, u: int)
    requires n <= |h| && AddDate(h, c, n, t) && AddDate(h, c, n, u)
    ensures t == u
  {
    hide Dated;
    var p :| 0 <= p < n && MakesCell(h, p, c) && Dated(h, p, t);
    var q :| 0 <= q < n && MakesCell(h, q, c) && Dated(h, q, u);
    if p != q {
      MadeOnce(h, if p < q then p else q, if p < q then q else p, c);
    }
    DatedOnce(h, p, t, u);
  }

  lemma WriteDateIsUnique(h: seq<Event>, c: nat, n: nat, t: int, u: int)
    requires n <= |h| && WriteDate(h, c, n, t) && WriteDate(h, c, n, u)
    ensures t == u
  {
    hide Dated, WritesCell;
    var p :| 0 <= p < n && LastWrite(h, p, c, n) && Dated(h, p, t);
    var q :| 0 <= q < n && LastWrite(h, q, c, n) && Dated(h, q, u);
    assert p == q;
    DatedOnce(h, p, t, u);
  }

  /** A system that has not finished a run began the one it is in no earlier than it was made. */
  lemma FirstRun(h: seq<Event>, i: nat, n: nat, lastRun: int, thisRun: int)
    requires Orderly(h) && n <= |h| && NeverEnded(h, i, n)
    requires SeenUntil(h, i, n, lastRun) && RunDate(h, i, n, thisRun)
    ensures thisRun - lastRun >= MAX_CHANGE_AGE
  {
    var p :| 0 <= p < n && MakesSystem(h, p, i) && lastRun == TimeAt(h, p) - MAX_CHANGE_AGE;
    var q :| 0 <= q < n && RunSince(h, q, i, n) && thisRun == TimeAt(h, q);
    HistoryTells(h, q);
    assert Legal(Replay(h[..q]), h[q]);
    hide Replay, SystemTold, CellTold;
    if q < p {
      CountsGrow(h, q, p);
    } else {
      CountsGrow(h, p, q);
    }
  }
}
