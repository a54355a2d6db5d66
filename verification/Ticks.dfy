/**
  Change detection. Times are kept in 32 bits, wrap around, and are clamped by scans every now and
  then; comparisons clamp ages as well. All of it stands in for comparing times on a clock that never
  wraps. `TrueClock` is that clock; `ChangeClock` is what a world stores.
 */
module Ticks {
  import opened Clocks
  import opened Collections

  type U32 = t: int | 0 <= t < TWO_TO_32 witness 0

  function Wrap(time: int): U32 {
    time % TWO_TO_32
  }

  /** `Tick::relative_to`: a wrapping subtraction. */
  function RelativeTo(tick: U32, other: U32): U32 {
    if tick >= other then tick - other else tick - other + TWO_TO_32
  }

  lemma WrapDifference(t: int, o: int)
    ensures RelativeTo(Wrap(t), Wrap(o)) == Wrap(t - o)
  {
    var q := t / TWO_TO_32 - o / TWO_TO_32;
    assert t - o == q * TWO_TO_32 + (Wrap(t) - Wrap(o));
    if Wrap(t) >= Wrap(o) {
      WrapIs(t - o, q, Wrap(t) - Wrap(o));
    } else {
      WrapIs(t - o, q - 1, Wrap(t) - Wrap(o) + TWO_TO_32);
    }
  }

  lemma WrapIs(time: int, q: int, r: int)
    requires time == q * TWO_TO_32 + r && 0 <= r < TWO_TO_32
    ensures Wrap(time) == r
  {
  }

  /** `Tick::is_newer_than`. */
  predicate IsNewerThan(tick: U32, lastRun: U32, thisRun: U32) {
    Min(RelativeTo(thisRun, lastRun), MAX_CHANGE_AGE) > Min(RelativeTo(thisRun, tick), MAX_CHANGE_AGE)
  }

  /** `Tick::check_tick`. */
  function CheckTick(tick: U32, now: U32): U32 {
    if RelativeTo(now, tick) > MAX_CHANGE_AGE then RelativeTo(now, Wrap(MAX_CHANGE_AGE)) else tick
  }

  // ---- stored ticks and the times they stand for -------------------------------------------

  /** `tick` stands for time `kept`, which is the true time unless a scan has moved it up to the horizon. */
  predicate Keeps(tick: U32, kept: int, time: int, scanAt: int, now: int) {
    tick == Wrap(kept) && time <= kept <= now && (kept == time || kept + MAX_CHANGE_AGE <= scanAt)
  }

  /** Recent enough that its age cannot overflow before the next scan. */
  predicate Covered(kept: int, scanAt: int) {
    scanAt - MAX_CHANGE_AGE <= kept
  }

  function CheckedTime(kept: int, now: int): int {
    if Wrap(now - kept) > MAX_CHANGE_AGE then now - MAX_CHANGE_AGE else kept
  }

  lemma SmallWrap(age: int)
    requires 0 <= age < TWO_TO_32
    ensures Wrap(age) == age
  {
  }

  /** A scan of a stored tick is a scan of the time it stands for. */
  lemma CheckKeeps(tick: U32, kept: int, time: int, scanAt: int, now: int)
    requires Keeps(tick, kept, time, scanAt, now) && scanAt <= now
    ensures Keeps(CheckTick(tick, Wrap(now)), CheckedTime(kept, now), time, now, now)
    ensures Covered(kept, scanAt) && now - scanAt < 2 * CHECK_TICK_THRESHOLD ==> Covered(CheckedTime(kept, now), now)
  {
    WrapDifference(now, kept);
    WrapDifference(now, MAX_CHANGE_AGE);
    SmallWrap(MAX_CHANGE_AGE);
    if now - kept < TWO_TO_32 {
      SmallWrap(now - kept);
    }
    if Wrap(now - kept) > MAX_CHANGE_AGE {
      assert now - kept > MAX_CHANGE_AGE by {
        if now - kept < TWO_TO_32 {
          SmallWrap(now - kept);
        }
      }
    }
  }

  /** Comparing stored ticks gives the answer of the clock that never wraps; a scan in between cannot be noticed. */
  lemma ComparisonIsTrue(tick: U32, kept: int, time: int, last: U32, keptLast: int, lastRun: int, thisRun: int,
                         scanAt: int, now: int)
    requires Keeps(tick, kept, time, scanAt, now) && Covered(kept, scanAt)
    requires Keeps(last, keptLast, lastRun, scanAt, now) && keptLast <= thisRun
    requires scanAt <= thisRun <= now && now - scanAt < 2 * CHECK_TICK_THRESHOLD
    ensures IsNewerThan(tick, last, Wrap(thisRun))
            <==> time <= thisRun && Min(Wrap(thisRun - keptLast), MAX_CHANGE_AGE) > Min(thisRun - time, MAX_CHANGE_AGE)
    ensures Covered(keptLast, scanAt) ==> (IsNewerThan(tick, last, Wrap(thisRun)) <==> Newer(time, lastRun, thisRun))
  {
    WrapDifference(thisRun, kept);
    WrapDifference(thisRun, keptLast);
    if kept <= thisRun {
      SmallWrap(thisRun - kept);
    } else {
      // a change after this run began wraps to an age beyond the horizon
      WrapIs(thisRun - kept, -1, thisRun - kept + TWO_TO_32);
    }
    if Covered(keptLast, scanAt) {
      SmallWrap(thisRun - keptLast);
    }
  }

  predicate RightAnswer(time: int, lastRun: int, thisRun: int) {
    IsNewerThan(Wrap(time), Wrap(lastRun), Wrap(thisRun)) <==> Newer(time, lastRun, thisRun)
  }

  /** Comparisons are right `gap` ticks after a scan exactly if that is less than twice the threshold. */
  lemma ScanGapExactIff(scanAt: int, gap: nat)
    ensures (forall time, lastRun :: Covered(time, scanAt) && time <= scanAt + gap
                                     && Covered(lastRun, scanAt) && lastRun <= scanAt + gap ==>
               RightAnswer(time, lastRun, scanAt + gap))
            <==> gap < 2 * CHECK_TICK_THRESHOLD
  {
    var now := scanAt + gap;
    if gap < 2 * CHECK_TICK_THRESHOLD {
      forall time, lastRun | Covered(time, scanAt) && time <= now && Covered(lastRun, scanAt) && lastRun <= now
        ensures RightAnswer(time, lastRun, now)
      {
        WrapDifference(now, time);
        WrapDifference(now, lastRun);
        SmallWrap(now - time);
        SmallWrap(now - lastRun);
      }
    } else {
      // a change at the age where ages wrap to 0 looks newer than a run one tick ago
      var time, lastRun := now - TWO_TO_32, now - 1;
      WrapDifference(now, time);
      WrapDifference(now, lastRun);
      WrapIs(now - time, 1, 0);
      SmallWrap(1);
      assert Covered(time, scanAt) && Covered(lastRun, scanAt) && !RightAnswer(time, lastRun, now);
    }
  }

  // ---- what a world stores -----------------------------------------------------------------

  datatype ComponentTicks = ComponentTicks(added: U32, changed: U32)

  datatype SystemTicks = SystemTicks(lastRun: U32, thisRun: Option<U32>)

  ghost predicate CellOk(cell: ComponentTicks, kept: TrueCell, time: TrueCell, scanAt: int, now: int) {
    && Keeps(cell.added, kept.added, time.added, scanAt, now) && Covered(kept.added, scanAt)
    && Keeps(cell.changed, kept.changed, time.changed, scanAt, now) && Covered(kept.changed, scanAt)
  }

  ghost predicate SystemOk(system: SystemTicks, kept: int, time: TrueSystem, scanAt: int, now: int) {
    && Keeps(system.lastRun, kept, time.lastRun, scanAt, now)
    && (system.thisRun.Some? <==> time.thisRun.Some?)
    && (system.thisRun.Some? ==>
          && system.thisRun.value == Wrap(time.thisRun.value)
          && scanAt <= time.thisRun.value <= now && kept <= time.thisRun.value)
  }

  /** What a stored tick stands for does not depend on how much time has passed since. */
  lemma TimePasses(scanAt: int, now: int, later: int)
    requires now <= later
    ensures forall cell, kept, time {:trigger CellOk(cell, kept, time, scanAt, later)} ::
              CellOk(cell, kept, time, scanAt, now) ==> CellOk(cell, kept, time, scanAt, later)
    ensures forall system, kept, time {:trigger SystemOk(system, kept, time, scanAt, later)} ::
              SystemOk(system, kept, time, scanAt, now) ==> SystemOk(system, kept, time, scanAt, later)
  {
    hide Wrap, Covered;
  }

  lemma CheckCell(cell: ComponentTicks, kept: TrueCell, time: TrueCell, scanAt: int, now: int)
    requires CellOk(cell, kept, time, scanAt, now) && scanAt <= now < scanAt + 2 * CHECK_TICK_THRESHOLD
    ensures CellOk(ComponentTicks(CheckTick(cell.added, Wrap(now)), CheckTick(cell.changed, Wrap(now))),
                   TrueCell(CheckedTime(kept.added, now), CheckedTime(kept.changed, now)), time, now, now)
  {
    CheckKeeps(cell.added, kept.added, time.added, scanAt, now);
    CheckKeeps(cell.changed, kept.changed, time.changed, scanAt, now);
  }

  lemma CheckSystem(system: SystemTicks, kept: int, time: TrueSystem, scanAt: int, now: int)
    requires SystemOk(system, kept, time, scanAt, now) && system.thisRun.None?
    requires scanAt <= now < scanAt + 2 * CHECK_TICK_THRESHOLD
    ensures SystemOk(system.(lastRun := CheckTick(system.lastRun, Wrap(now))), CheckedTime(kept, now), time, now, now)
    ensures SystemOk(system, kept, time, now, now)
    ensures Covered(kept, scanAt) ==> Covered(CheckedTime(kept, now), now)
    ensures now - kept <= MAX_CHANGE_AGE ==> Covered(kept, now) && Covered(CheckedTime(kept, now), now)
  {
    CheckKeeps(system.lastRun, kept, time.lastRun, scanAt, now);
    if now - kept <= MAX_CHANGE_AGE {
      SmallWrap(now - kept);
    }
  }

  class ChangeClock {
    var changeTick: U32
    var lastCheckTick: U32
    var cells: seq<ComponentTicks>
    var systems: seq<SystemTicks>
    ghost var history: seq<Event>
    /** The time of the last scan. */
    ghost var scanAt: int
    /** The times the stored ticks stand for. */
    ghost var keptCells: seq<TrueCell>
    ghost var keptRuns: seq<int>

    ghost function Clock(): TrueClock
      reads this`history
    {
      Replay(history)
    }

    ghost predicate Valid()
      reads this
    {
      var clock := Clock();
      && Orderly(history)
      && changeTick == Wrap(clock.now) && lastCheckTick == Wrap(scanAt)
      && scanAt <= clock.now < scanAt + 2 * CHECK_TICK_THRESHOLD
      && |cells| == |keptCells| == |clock.cells|
      && (forall c :: 0 <= c < |cells| ==> CellOk(cells[c], keptCells[c], clock.cells[c], scanAt, clock.now))
      && |systems| == |keptRuns| == |clock.systems|
      && (forall i :: 0 <= i < |systems| ==> SystemOk(systems[i], keptRuns[i], clock.systems[i], scanAt, clock.now))
    }

    /** The scans have reached the last run of system `i` whenever they had to. */
    ghost predicate Scanned(i: nat)
      reads this
    {
      i < |keptRuns| && Covered(keptRuns[i], scanAt)
    }

    predicate Running(i: nat)
      reads this
    {
      i < |systems| && systems[i].thisRun.Some?
    }

    /** No system is running. */
    predicate Idle()
      reads this
    {
      forall i :: 0 <= i < |systems| ==> systems[i].thisRun.None?
    }

    /** Scans are at most `2 * CHECK_TICK_THRESHOLD - 1` ticks apart; `ScanGapExactIff` says why no more is allowed. */
    ghost predicate MayTick()
      reads this
    {
      Clock().now - scanAt < 2 * CHECK_TICK_THRESHOLD - 1
    }

    constructor ()
      ensures Valid() && history == [] && cells == [] && systems == [] && scanAt == 0
    {
      changeTick, lastCheckTick := 1, 0;
      cells, systems := [], [];
      history, scanAt := [], 0;
      keptCells, keptRuns := [], [];
    }

    /** `increment_change_tick`: the tick before. */
    method Increment() returns (prev: U32)
      modifies this`changeTick
      ensures prev == old(changeTick) && changeTick == Wrap(prev + 1)
    {
      prev := changeTick;
      changeTick := if prev == TWO_TO_32 - 1 then 0 else prev + 1;
    }

    method Advance()
      requires Valid() && MayTick()
      modifies this`changeTick, this`history
      ensures Valid() && history == old(history) + [Tick]
    {
      hide CellOk, SystemOk, Wrap, Replay, Orderly;
      ReplaySnoc(history, Tick);
      OrderlySnoc(history, Tick);
      NextTick(Clock().now);
      ghost var now := Clock().now;
      history := history + [Tick];
      TimePasses(scanAt, now, Clock().now);
      var _ := Increment();
    }

    /** `initialize`: a new system is as if it had last run at the horizon. */
    method AddSystem() returns (i: nat)
      requires Valid()
      modifies this`systems, this`keptRuns, this`history
      ensures Valid() && history == old(history) + [NewSystem]
      ensures i == |old(systems)| && Scanned(i) && !Running(i)
      ensures forall j: nat :: j < i ==> (Scanned(j) <==> old(Scanned(j)))
    {
      hide Replay, Orderly, CellOk;
      SmallWrap(MAX_CHANGE_AGE);
      WrapDifference(Clock().now, MAX_CHANGE_AGE);
      ReplaySnoc(history, NewSystem);
      OrderlySnoc(history, NewSystem);
      i := |systems|;
      keptRuns := keptRuns + [Clock().now - MAX_CHANGE_AGE];
      systems := systems + [SystemTicks(RelativeTo(changeTick, Wrap(MAX_CHANGE_AGE)), None)];
      history := history + [NewSystem];
    }

    /** The start of `run_unsafe`: the run is stamped with the tick it begins at. */
    method BeginRun(i: nat)
      requires Valid() && MayTick()
      requires i < |systems| && !Running(i)
      modifies this`changeTick, this`systems, this`history
      ensures Valid() && history == old(history) + [Begin(i)]
      ensures Running(i) && forall j: nat :: j != i ==> (Running(j) <==> old(Running(j)))
    {
      hide Replay, Orderly;
      ReplaySnoc(history, Begin(i));
      OrderlySnoc(history, Begin(i));
      NextTick(Clock().now);
      history := history + [Begin(i)];
      var tick := Increment();
      systems := systems[i := systems[i].(thisRun := Some(tick))];
    }

    /** The end of `run_unsafe`: `last_run` becomes the tick of the run. */
    method EndRun(i: nat)
      requires Valid() && Running(i)
      modifies this`systems, this`keptRuns, this`history
      ensures Valid() && history == old(history) + [End(i)]
      ensures !Running(i) && forall j: nat :: j != i ==> (Running(j) <==> old(Running(j)))
      ensures Scanned(i) && forall j: nat :: j != i ==> (Scanned(j) <==> old(Scanned(j)))
      ensures keptRuns == old(keptRuns)[i := old(Clock()).systems[i].thisRun.value]
    {
      hide Replay, Orderly, CellOk;
      ReplaySnoc(history, End(i));
      OrderlySnoc(history, End(i));
      keptRuns := keptRuns[i := Clock().systems[i].thisRun.value];
      history := history + [End(i)];
      systems := systems[i := SystemTicks(systems[i].thisRun.value, None)];
    }

    /** The tick a write is stamped with. */
    function Stamp(writer: Option<nat>): U32
      requires writer.Some? ==> Running(writer.value)
      reads this
    {
      if writer.Some? then systems[writer.value].thisRun.value else changeTick
    }

    /** `ComponentTicks::new`. */
    method Insert(writer: Option<nat>) returns (c: nat)
      requires Valid() && (writer.Some? ==> Running(writer.value))
      modifies this`cells, this`keptCells, this`history
      ensures Valid() && history == old(history) + [AddCell(writer)]
      ensures c == |old(cells)| < |cells|
    {
      hide Replay, Orderly;
      WriterIsRunning(this, writer);
      ReplaySnoc(history, AddCell(writer));
      OrderlySnoc(history, AddCell(writer));
      hide Legal, SystemOk;
      ghost var time := WriteTime(Clock(), writer);
      c := |cells|;
      cells := cells + [ComponentTicks(Stamp(writer), Stamp(writer))];
      keptCells := keptCells + [TrueCell(time, time)];
      history := history + [AddCell(writer)];
    }

    /** `set_changed`. */
    method SetChanged(c: nat, writer: Option<nat>)
      requires Valid() && c < |cells| && (writer.Some? ==> Running(writer.value))
      modifies this`cells, this`keptCells, this`history
      ensures Valid() && history == old(history) + [Change(c, writer)]
    {
      hide Replay, Orderly;
      WriterIsRunning(this, writer);
      ReplaySnoc(history, Change(c, writer));
      OrderlySnoc(history, Change(c, writer));
      hide Legal, SystemOk;
      ghost var time := WriteTime(Clock(), writer);
      cells := cells[c := cells[c].(changed := Stamp(writer))];
      keptCells := keptCells[c := keptCells[c].(changed := time)];
      history := history + [Change(c, writer)];
    }

    /** `check_change_ticks`; no system may be running. The systems in `hidden` are out of its reach. */
    method CheckChangeTicks(hidden: set<nat>)
      requires Valid() && Idle()
      modifies this
      ensures Valid() && history == old(history) + [Check(hidden)]
      // so a world that is checked every `CHECK_TICK_THRESHOLD` ticks may always tick
      ensures Clock().now - scanAt < CHECK_TICK_THRESHOLD
      ensures Clock() == old(Clock()) && |systems| == |old(systems)| && |cells| == |old(cells)|
      ensures Idle()
      ensures forall i :: 0 <= i < |systems| && old(Scanned(i))
                          && (i !in hidden || Clock().now - old(keptRuns[i]) <= MAX_CHANGE_AGE) ==>
                Scanned(i)
      ensures forall i :: 0 <= i < |systems| && i in hidden ==> keptRuns[i] == old(keptRuns[i])
    {
      SmallWrap(Clock().now - scanAt);
      WrapDifference(Clock().now, scanAt);
      hide CellOk, SystemOk, Wrap, Replay, Covered, Orderly;
      NoteCheck(hidden);
      if RelativeTo(changeTick, lastCheckTick) >= CHECK_TICK_THRESHOLD {
        Scan(hidden);
      }
    }

    ghost method NoteCheck(hidden: set<nat>)
      requires Orderly(history)
      modifies this`history
      ensures history == old(history) + [Check(hidden)] && Orderly(history)
      ensures Clock() == old(Clock())
    {
      hide Replay, Orderly;
      ReplaySnoc(history, Check(hidden));
      OrderlySnoc(history, Check(hidden));
      history := history + [Check(hidden)];
    }

    /** Every stored tick older than the horizon is moved up to it. */
    method Scan(hidden: set<nat>)
      requires Orderly(history) && changeTick == Wrap(Clock().now)
               && scanAt <= Clock().now < scanAt + 2 * CHECK_TICK_THRESHOLD
      requires |cells| == |keptCells| == |Clock().cells| && |systems| == |keptRuns| == |Clock().systems| && Idle()
      requires forall c :: 0 <= c < |cells| ==> CellOk(cells[c], keptCells[c], Clock().cells[c], scanAt, Clock().now)
      requires forall i :: 0 <= i < |systems| ==>
                 SystemOk(systems[i], keptRuns[i], Clock().systems[i], scanAt, Clock().now)
      modifies this`cells, this`keptCells, this`systems, this`keptRuns, this`lastCheckTick, this`scanAt
      ensures Valid() && Idle() && scanAt == Clock().now
      ensures |systems| == |old(systems)| && |cells| == |old(cells)|
      ensures forall i :: 0 <= i < |systems| && Covered(old(keptRuns[i]), old(scanAt))
                          && (i !in hidden || Clock().now - old(keptRuns[i]) <= MAX_CHANGE_AGE) ==>
                Covered(keptRuns[i], scanAt)
      ensures forall i :: 0 <= i < |systems| && i in hidden ==> keptRuns[i] == old(keptRuns[i])
    {
      hide CellOk, SystemOk, Wrap, Replay, Covered, Orderly;
      ScanCells();
      ScanSystems(hidden);
      lastCheckTick := changeTick;
      scanAt := Clock().now;
    }

    method ScanCells()
      requires changeTick == Wrap(Clock().now) && scanAt <= Clock().now < scanAt + 2 * CHECK_TICK_THRESHOLD
      requires |cells| == |keptCells| == |Clock().cells|
      requires forall c :: 0 <= c < |cells| ==> CellOk(cells[c], keptCells[c], Clock().cells[c], scanAt, Clock().now)
      modifies this`cells, this`keptCells
      ensures |cells| == |keptCells| == |Clock().cells|
      ensures forall c :: 0 <= c < |cells| ==>
                CellOk(cells[c], keptCells[c], Clock().cells[c], Clock().now, Clock().now)
    {
      ghost var clock := Clock();
      hide CellOk, CheckTick, CheckedTime, Wrap, Replay;
      for k := 0 to |cells|
        invariant |cells| == |keptCells| == |clock.cells| == |old(cells)|
        invariant forall c :: 0 <= c < k ==> CellOk(cells[c], keptCells[c], clock.cells[c], clock.now, clock.now)
        invariant forall c :: k <= c < |cells| ==> CellOk(cells[c], keptCells[c], clock.cells[c], scanAt, clock.now)
      {
        CheckCell(cells[k], keptCells[k], clock.cells[k], scanAt, clock.now);
        keptCells := keptCells[k := TrueCell(CheckedTime(keptCells[k].added, clock.now),
                                             CheckedTime(keptCells[k].changed, clock.now))];
        cells := cells[k := ComponentTicks(CheckTick(cells[k].added, changeTick),
                                           CheckTick(cells[k].changed, changeTick))];
      }
    }

    method ScanSystems(hidden: set<nat>)
      requires changeTick == Wrap(Clock().now) && scanAt <= Clock().now < scanAt + 2 * CHECK_TICK_THRESHOLD
      requires |systems| == |keptRuns| == |Clock().systems| && Idle()
      requires forall i :: 0 <= i < |systems| ==>
                 SystemOk(systems[i], keptRuns[i], Clock().systems[i], scanAt, Clock().now)
      modifies this`systems, this`keptRuns
      ensures |systems| == |keptRuns| == |Clock().systems| == |old(systems)|
      ensures Idle()
      ensures forall i :: 0 <= i < |systems| ==>
                SystemOk(systems[i], keptRuns[i], Clock().systems[i], Clock().now, Clock().now)
      ensures forall i :: 0 <= i < |systems| && Covered(old(keptRuns[i]), scanAt)
                          && (i !in hidden || Clock().now - old(keptRuns[i]) <= MAX_CHANGE_AGE) ==>
                Covered(keptRuns[i], Clock().now)
      ensures forall i :: 0 <= i < |systems| && i in hidden ==> keptRuns[i] == old(keptRuns[i])
    {
      ghost var clock := Clock();
      ghost var kept := keptRuns;
      hide SystemOk, CheckTick, CheckedTime, Wrap, Replay, Covered;
      for k := 0 to |systems|
        invariant |systems| == |keptRuns| == |clock.systems| == |kept|
        invariant forall i :: 0 <= i < |systems| ==> systems[i].thisRun.None?
        invariant forall i :: 0 <= i < k ==> SystemOk(systems[i], keptRuns[i], clock.systems[i], clock.now, clock.now)
        invariant forall i :: 0 <= i < k && Covered(kept[i], scanAt)
                              && (i !in hidden || clock.now - kept[i] <= MAX_CHANGE_AGE) ==>
                    Covered(keptRuns[i], clock.now)
        invariant forall i :: 0 <= i < |systems| && i in hidden ==> keptRuns[i] == kept[i]
        invariant forall i :: k <= i < |systems| ==>
                    keptRuns[i] == kept[i] && SystemOk(systems[i], keptRuns[i], clock.systems[i], scanAt, clock.now)
      {
        CheckSystem(systems[k], keptRuns[k], clock.systems[k], scanAt, clock.now);
        if k !in hidden {
          keptRuns := keptRuns[k := CheckedTime(keptRuns[k], clock.now)];
          systems := systems[k := systems[k].(lastRun := CheckTick(systems[k].lastRun, changeTick))];
        }
      }
    }

    // ---- queries ---------------------------------------------------------------------------

    /** `is_changed`, asked by running system `i`. */
    predicate IsChanged(c: nat, i: nat)
      requires c < |cells| && Running(i)
      reads this
    {
      IsNewerThan(cells[c].changed, systems[i].lastRun, systems[i].thisRun.value)
    }

    /** `is_added`, asked by running system `i`. */
    predicate IsAdded(c: nat, i: nat)
      requires c < |cells| && Running(i)
      reads this
    {
      IsNewerThan(cells[c].added, systems[i].lastRun, systems[i].thisRun.value)
    }
  }

  /** The stamp of a write stands for its true time. */
  lemma WriterIsRunning(w: ChangeClock, writer: Option<nat>)
    requires w.Valid() && (writer.Some? ==> w.Running(writer.value))
    ensures WriterRuns(w.Clock(), writer)
    ensures var time := WriteTime(w.Clock(), writer);
            w.Stamp(writer) == Wrap(time) && w.scanAt <= time <= w.Clock().now
  {
    hide Replay, Orderly, CellOk;
    if writer.Some? {
      var i := writer.value;
      assert SystemOk(w.systems[i], w.keptRuns[i], w.Clock().systems[i], w.scanAt, w.Clock().now);
    }
  }

  lemma NextTick(now: int)
    ensures Wrap(now + 1) == Wrap(Wrap(now) + 1)
  {
    var q, r := now / TWO_TO_32, Wrap(now);
    if r + 1 < TWO_TO_32 {
      WrapIs(now + 1, q, r + 1);
      SmallWrap(r + 1);
    } else {
      WrapIs(now + 1, q + 1, 0);
      WrapIs(r + 1, 1, 0);
    }
  }

  /** A running system is told of exactly the changes and additions that the clock that never wraps shows it. */
  lemma AnswersAreTrue(w: ChangeClock, c: nat, i: nat)
    requires w.Valid() && c < |w.cells| && w.Running(i) && w.Scanned(i)
    ensures w.Clock().systems[i].thisRun.Some?
    ensures var s := w.Clock().systems[i];
            && (w.IsChanged(c, i) <==> Newer(w.Clock().cells[c].changed, s.lastRun, s.thisRun.value))
            && (w.IsAdded(c, i) <==> Newer(w.Clock().cells[c].added, s.lastRun, s.thisRun.value))
  {
    var clock := w.Clock();
    var s := clock.systems[i];
    assert SystemOk(w.systems[i], w.keptRuns[i], s, w.scanAt, clock.now);
    assert CellOk(w.cells[c], w.keptCells[c], clock.cells[c], w.scanAt, clock.now);
    ComparisonIsTrue(w.cells[c].changed, w.keptCells[c].changed, clock.cells[c].changed,
                     w.systems[i].lastRun, w.keptRuns[i], s.lastRun, s.thisRun.value, w.scanAt, clock.now);
    ComparisonIsTrue(w.cells[c].added, w.keptCells[c].added, clock.cells[c].added,
                     w.systems[i].lastRun, w.keptRuns[i], s.lastRun, s.thisRun.value, w.scanAt, clock.now);
  }

  /**
    The same by positions in the history: a running system is told of a write if it was made, for a system at the
    beginning of its run, not after this run began, and after the last finished run of this system began.
   */
  lemma AnswersFollowHistory(w: ChangeClock, c: nat, i: nat, added: int, changed: int, lastRun: int, thisRun: int)
    requires w.Valid() && c < |w.cells| && w.Running(i) && w.Scanned(i)
    requires var n := |w.history|;
             && AddDate(w.history, c, n, added) && WriteDate(w.history, c, n, changed)
             && SeenUntil(w.history, i, n, lastRun) && RunDate(w.history, i, n, thisRun)
    ensures w.IsAdded(c, i) <==> Newer(added, lastRun, thisRun)
    ensures w.IsChanged(c, i) <==> Newer(changed, lastRun, thisRun)
  {
    hide AddDate, WriteDate, SeenUntil, RunDate, Orderly, Replay, IsNewerThan, Newer;
    var h, n := w.history, |w.history|;
    DatesExist(w, c, i);
    AnswersAreTrue(w, c, i);
    var k := w.Clock();
    AddDateIsUnique(h, c, n, added, k.cells[c].added);
    WriteDateIsUnique(h, c, n, changed, k.cells[c].changed);
    SeenUntilIsUnique(h, i, n, lastRun, k.systems[i].lastRun);
    RunDateIsUnique(h, i, n, thisRun, k.systems[i].thisRun.value);
  }

  /** Every stored cell and every running system has these dates. */
  lemma DatesExist(w: ChangeClock, c: nat, i: nat)
    requires w.Valid() && c < |w.cells| && w.Running(i)
    ensures c < |w.Clock().cells| && i < |w.Clock().systems| && w.Clock().systems[i].thisRun.Some?
    ensures var h, n, k := w.history, |w.history|, w.Clock();
            && AddDate(h, c, n, k.cells[c].added) && WriteDate(h, c, n, k.cells[c].changed)
            && SeenUntil(h, i, n, k.systems[i].lastRun) && RunDate(h, i, n, k.systems[i].thisRun.value)
  {
    hide AddDate, WriteDate, SeenUntil, RunDate, Orderly, Replay;
    var h, n, k := w.history, |w.history|, w.Clock();
    HistoryTells(h, n);
    assert h[..n] == h;
    assert SystemOk(w.systems[i], w.keptRuns[i], k.systems[i], w.scanAt, k.now);
    assert SystemTold(h, n, i, k.systems[i]) && CellTold(h, n, c, k.cells[c]);
  }

  /** In its first run a system is told of everything that is there already, unless it is older than the horizon. */
  lemma FirstRunSeesAll(w: ChangeClock, c: nat, i: nat, added: int, changed: int, thisRun: int)
    requires w.Valid() && c < |w.cells| && w.Running(i) && w.Scanned(i)
    requires var n := |w.history|;
             && NeverEnded(w.history, i, n) && RunDate(w.history, i, n, thisRun)
             && AddDate(w.history, c, n, added) && WriteDate(w.history, c, n, changed)
    ensures w.IsAdded(c, i) <==> added <= thisRun && thisRun - added < MAX_CHANGE_AGE
    ensures w.IsChanged(c, i) <==> changed <= thisRun && thisRun - changed < MAX_CHANGE_AGE
  {
    hide AddDate, WriteDate, SeenUntil, RunDate, Orderly, Replay, IsNewerThan, NeverEnded;
    DatesExist(w, c, i);
    var lastRun := w.Clock().systems[i].lastRun;
    AnswersFollowHistory(w, c, i, added, changed, lastRun, thisRun);
    FirstRun(w.history, i, |w.history|, lastRun, thisRun);
  }

  /** Without the scans, the age of the last run is seen modulo 2^32; `UnscannedExactIff` says when that matters. */
  lemma UnscannedAnswers(w: ChangeClock, c: nat, i: nat)
    requires w.Valid() && c < |w.cells| && w.Running(i)
    ensures w.Clock().systems[i].thisRun.Some?
    ensures var s := w.Clock().systems[i];
            var time, thisRun := w.Clock().cells[c].changed, s.thisRun.value;
            && w.keptRuns[i] >= s.lastRun
            && (w.IsChanged(c, i)
                <==> time <= thisRun
                     && Min(Wrap(thisRun - w.keptRuns[i]), MAX_CHANGE_AGE) > Min(thisRun - time, MAX_CHANGE_AGE))
  {
    var clock := w.Clock();
    var s := clock.systems[i];
    assert SystemOk(w.systems[i], w.keptRuns[i], s, w.scanAt, clock.now);
    assert CellOk(w.cells[c], w.keptCells[c], clock.cells[c], w.scanAt, clock.now);
    ComparisonIsTrue(w.cells[c].changed, w.keptCells[c].changed, clock.cells[c].changed,
                     w.systems[i].lastRun, w.keptRuns[i], s.lastRun, s.thisRun.value, w.scanAt, clock.now);
  }

  /** The change of cell `c` is older than the wrapped age of the last run, and so looks as if it came before that. */
  ghost predicate InMissedWindow(w: ChangeClock, c: nat, i: nat)
    requires w.Valid() && c < |w.cells| && w.Running(i)
    reads w
  {
    assert SystemOk(w.systems[i], w.keptRuns[i], w.Clock().systems[i], w.scanAt, w.Clock().now);
    var thisRun := w.Clock().systems[i].thisRun.value;
    Wrap(thisRun - w.keptRuns[i]) <= thisRun - w.Clock().cells[c].changed < MAX_CHANGE_AGE
  }

  /**
    A running system, whether or not the scans have reached it, is answered rightly about every change if and only
    if the age of its last run has not overflowed, or no change falls in the window that the overflow hides.
   */
  lemma UnscannedExactIff(w: ChangeClock, i: nat)
    requires w.Valid() && w.Running(i)
    ensures w.Clock().systems[i].thisRun.Some?
    ensures var s := w.Clock().systems[i];
            (forall c :: 0 <= c < |w.cells| ==>
               (w.IsChanged(c, i) <==> Newer(w.Clock().cells[c].changed, s.lastRun, s.thisRun.value)))
            <==> s.thisRun.value - w.keptRuns[i] < TWO_TO_32
                 || forall c :: 0 <= c < |w.cells| ==> !InMissedWindow(w, c, i)
  {
    var clock := w.Clock();
    var s := clock.systems[i];
    assert SystemOk(w.systems[i], w.keptRuns[i], s, w.scanAt, clock.now);
    forall c | 0 <= c < |w.cells|
      ensures (w.IsChanged(c, i) <==> Newer(clock.cells[c].changed, s.lastRun, s.thisRun.value))
              <==> s.thisRun.value - w.keptRuns[i] < TWO_TO_32 || !InMissedWindow(w, c, i)
    {
      UnscannedAnswers(w, c, i);
      MissedExactIff(clock.cells[c].changed, w.keptRuns[i], s.lastRun, s.thisRun.value, w.scanAt);
    }
  }

  lemma MissedExactIff(time: int, kept: int, lastRun: int, thisRun: int, scanAt: int)
    requires lastRun <= kept <= thisRun && (kept == lastRun || kept + MAX_CHANGE_AGE <= scanAt <= thisRun)
    ensures ((time <= thisRun && Min(Wrap(thisRun - kept), MAX_CHANGE_AGE) > Min(thisRun - time, MAX_CHANGE_AGE))
             <==> Newer(time, lastRun, thisRun))
            <==> thisRun - kept < TWO_TO_32 || !(Wrap(thisRun - kept) <= thisRun - time < MAX_CHANGE_AGE)
  {
    if thisRun - kept < TWO_TO_32 {
      SmallWrap(thisRun - kept);
    }
  }

  /**
    A run in which that matters: a system is out of reach of all scans for 2^32 ticks, because its schedule has been
    taken out to be run, and misses a change made one tick ago.
   */
  method MissedChange() returns (w: ChangeClock, c: nat, i: nat)
    ensures fresh(w) && w.Valid() && c < |w.cells| && w.Running(i) && w.Clock().systems[i].thisRun.Some?
    ensures var s := w.Clock().systems[i];
            Newer(w.Clock().cells[c].changed, s.lastRun, s.thisRun.value) && !w.IsChanged(c, i)
  {
    hide CellOk, SystemOk, IsNewerThan, ChangeClock.IsChanged, Wrap, Orderly;
    w := RanOnce();
    i := 0;
    HideFor(w, TWO_TO_32);
    ghost var h := w.history;
    c := w.Insert(None);
    ReplaySnoc(h, AddCell(None));
    h := w.history;
    w.Advance();
    ReplaySnoc(h, Tick);
    h := w.history;
    w.BeginRun(i);
    ReplaySnoc(h, Begin(i));
    UnscannedAnswers(w, c, i);
    WrapIs(TWO_TO_32, 1, 0);
  }

  /** A system that ran at time 1. */
  method RanOnce() returns (w: ChangeClock)
    ensures fresh(w) && w.Valid()
    ensures w.Clock() == TrueClock(2, [], [TrueSystem(1, None)]) && w.keptRuns == [1]
  {
    hide CellOk, SystemOk, Orderly, Wrap;
    w := new ChangeClock();
    var i := w.AddSystem();
    ReplaySnoc([], NewSystem);
    ghost var h := w.history;
    w.BeginRun(i);
    ReplaySnoc(h, Begin(i));
    h := w.history;
    w.EndRun(i);
    ReplaySnoc(h, End(i));
  }

  /** Time passes, with a check at every tick, until `end`; system 0 stays out of reach. */
  method HideFor(w: ChangeClock, end: nat)
    requires w.Valid() && w.Clock() == TrueClock(2, [], [TrueSystem(1, None)]) && w.keptRuns == [1] && 2 <= end
    modifies w
    ensures w.Valid() && w.Clock() == TrueClock(end, [], [TrueSystem(1, None)]) && w.keptRuns == [1]
    ensures end - w.scanAt < CHECK_TICK_THRESHOLD && !w.Running(0)
  {
    assert SystemOk(w.systems[0], w.keptRuns[0], w.Clock().systems[0], w.scanAt, 2);
    w.CheckChangeTicks({0});
    for n := 2 to end
      invariant w.Valid() && w.Clock() == TrueClock(n, [], [TrueSystem(1, None)]) && w.keptRuns == [1]
      invariant n - w.scanAt < CHECK_TICK_THRESHOLD
    {
      ghost var h := w.history;
      w.Advance();
      ReplaySnoc(h, Tick);
      assert SystemOk(w.systems[0], w.keptRuns[0], w.Clock().systems[0], w.scanAt, n + 1);
      w.CheckChangeTicks({0});
    }
  }

  /** No stored age overflows: the wrapped age of every component tick is the age of the time it stands for. */
  lemma NoAgeOverflows(w: ChangeClock, c: nat)
    requires w.Valid() && c < |w.cells|
    ensures RelativeTo(w.changeTick, w.cells[c].changed) == w.Clock().now - w.keptCells[c].changed
    ensures RelativeTo(w.changeTick, w.cells[c].added) == w.Clock().now - w.keptCells[c].added
    ensures Min(RelativeTo(w.changeTick, w.cells[c].changed), MAX_CHANGE_AGE)
            == Min(w.Clock().now - w.Clock().cells[c].changed, MAX_CHANGE_AGE)
  {
    var clock := w.Clock();
    assert CellOk(w.cells[c], w.keptCells[c], clock.cells[c], w.scanAt, clock.now);
    WrapDifference(clock.now, w.keptCells[c].changed);
    WrapDifference(clock.now, w.keptCells[c].added);
    SmallWrap(clock.now - w.keptCells[c].changed);
    SmallWrap(clock.now - w.keptCells[c].added);
  }

  /** Two worlds whose runs differ only in when ticks were checked answer alike. */
  lemma ChecksDoNotMatter(v: ChangeClock, w: ChangeClock, c: nat, i: nat)
    requires v.Valid() && w.Valid() && WithoutChecks(v.history) == WithoutChecks(w.history)
    requires c < |v.cells| && v.Running(i) && v.Scanned(i) && w.Scanned(i)
    ensures c < |w.cells| && w.Running(i)
    ensures (v.IsChanged(c, i) <==> w.IsChanged(c, i)) && (v.IsAdded(c, i) <==> w.IsAdded(c, i))
  {
    ChecksLeaveNoTrace(v.history);
    ChecksLeaveNoTrace(w.history);
    assert SystemOk(v.systems[i], v.keptRuns[i], v.Clock().systems[i], v.scanAt, v.Clock().now);
    assert SystemOk(w.systems[i], w.keptRuns[i], w.Clock().systems[i], w.scanAt, w.Clock().now);
    AnswersAreTrue(v, c, i);
    AnswersAreTrue(w, c, i);
  }
}
