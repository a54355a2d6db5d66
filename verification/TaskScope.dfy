/**
  `TaskPool::scope` as a protocol. Tasks run on other threads and may spawn further tasks; a spawn is
  two steps, handing the future to an executor and then pushing its handle onto the scope's queue, so a
  task can run, spawn and finish before its own handle is in the queue. The scope pops handles and
  awaits them one by one, and stops when the queue is empty. An executor is any step of any unfinished task.
 */
module TaskScope {
  import opened Collections

  /** Which of the three `spawn` methods was used; they differ only in the executor. */
  datatype Executor = Pool | ScopeThread | ExternalThread

  datatype Agent = Main | Worker(task: nat)

  datatype Outcome<T> = Value(value: T) | Panic | Cancelled

  datatype Task<T> = Task(spawner: Agent, executor: Executor, outcome: Option<Outcome<T>>)

  /** The last three are the way out when the closure or an awaited task has panicked (`Scope::drop`). */
  datatype Phase = RunningClosure | Draining | Awaiting | Returned | Unwinding | Cancelling | Unwound

  /**
    `spawning` holds the tasks handed to an executor whose handle is not pushed yet. The queue is the part of
    `pushed` after the first `popped` handles.
   */
  datatype State<T> = State(
    phase: Phase, tasks: seq<Task<T>>, spawning: map<Agent, nat>, pushed: seq<nat>, popped: nat, results: seq<T>)
  {
    predicate QueueIsEmpty() {
      popped == |pushed|
    }

    predicate Live(t: nat) {
      t < |tasks| && tasks[t].outcome.None?
    }

    predicate Active(agent: Agent) {
      match agent
      case Main => phase == RunningClosure
      case Worker(t) => Live(t)
    }
  }

  datatype Action<T> =
    | Spawn(agent: Agent, executor: Executor)
    | Push(agent: Agent)
    | Finish(task: nat, outcome: Outcome<T>)
    | ClosureReturns
    | ClosurePanics
    | Pop
    | Join
    | Cancel
    | JoinCancelled

  function Start<T>(): State<T> {
    State(RunningClosure, [], map[], [], 0, [])
  }

  /** `t` is being awaited or cancelled. */
  ghost predicate Current<T>(s: State<T>, t: nat) {
    0 < s.popped <= |s.pushed| && s.pushed[s.popped - 1] == t
  }

  ghost predicate Enabled<T>(s: State<T>, action: Action<T>) {
    match action
    case Spawn(agent, _) => s.Active(agent) && agent !in s.spawning
    case Push(agent) => agent in s.spawning
    case Finish(t, outcome) => s.Live(t) && Worker(t) !in s.spawning && outcome != Cancelled
    case ClosureReturns => s.phase == RunningClosure && Main !in s.spawning
    case ClosurePanics => s.phase == RunningClosure && Main !in s.spawning
    case Pop => s.phase == Draining || s.phase == Unwinding
    case Join => s.phase == Awaiting && exists t: nat :: Current(s, t) && t < |s.tasks| && s.tasks[t].outcome.Some?
    case Cancel => s.phase == Cancelling && exists t: nat :: Current(s, t) && s.Live(t) && Worker(t) !in s.spawning
    case JoinCancelled =>
      s.phase == Cancelling && exists t: nat :: Current(s, t) && t < |s.tasks| && s.tasks[t].outcome.Some?
  }

  ghost function Step<T>(s: State<T>, action: Action<T>): State<T>
    requires Enabled(s, action)
  {
    match action
    case Spawn(agent, executor) =>
      s.(tasks := s.tasks + [Task(agent, executor, None)], spawning := s.spawning[agent := |s.tasks|])
    case Push(agent) =>
      s.(pushed := s.pushed + [s.spawning[agent]], spawning := s.spawning - {agent})
    case Finish(t, outcome) =>
      s.(tasks := s.tasks[t := s.tasks[t].(outcome := Some(outcome))])
    case ClosureReturns =>
      s.(phase := if s.QueueIsEmpty() then Returned else Draining)
    case ClosurePanics =>
      s.(phase := Unwinding)
    case Pop =>
      if s.phase == Draining then
        if s.QueueIsEmpty() then s.(phase := Returned) else s.(phase := Awaiting, popped := s.popped + 1)
      else
        if s.QueueIsEmpty() then s.(phase := Unwound) else s.(phase := Cancelling, popped := s.popped + 1)
    case Join =>
      var outcome := s.tasks[s.pushed[s.popped - 1]].outcome.value;
      if outcome.Value? then s.(phase := Draining, results := s.results + [outcome.value]) else s.(phase := Unwinding)
    case Cancel =>
      var t := s.pushed[s.popped - 1];
      s.(tasks := s.tasks[t := s.tasks[t].(outcome := Some(Cancelled))])
    case JoinCancelled =>
      s.(phase := Unwinding)
  }

  // ---- the invariant -----------------------------------------------------------------------

  ghost predicate Handled<T>(s: State<T>, t: nat) {
    t in s.pushed || exists agent :: agent in s.spawning && s.spawning[agent] == t
  }

  /** Every handle is pushed once, or is being pushed by the agent that spawned its task. */
  ghost predicate Handles<T>(s: State<T>) {
    && NoDuplicates(s.pushed)
    && (forall k :: 0 <= k < |s.pushed| ==> s.pushed[k] < |s.tasks|)
    && (forall agent :: agent in s.spawning ==>
          && s.Active(agent) && s.spawning[agent] < |s.tasks|
          && s.tasks[s.spawning[agent]].spawner == agent && s.spawning[agent] !in s.pushed)
    && (forall t :: 0 <= t < |s.tasks| ==> Handled(s, t))
  }

  /** Tasks are younger than their spawners. */
  ghost predicate Ages<T>(s: State<T>) {
    forall t :: 0 <= t < |s.tasks| && s.tasks[t].spawner.Worker? ==> s.tasks[t].spawner.task < t
  }

  /** Handles that were popped, the current one aside, belong to tasks that are done. */
  ghost predicate PoppedAreDone<T>(s: State<T>) {
    && s.popped <= |s.pushed|
    && (s.phase == RunningClosure ==> s.popped == 0)
    && (s.phase == Awaiting || s.phase == Cancelling ==> 0 < s.popped)
    && (forall k :: 0 <= k < Joined(s) && s.pushed[k] < |s.tasks| ==> s.tasks[s.pushed[k]].outcome.Some?)
  }

  function Joined<T>(s: State<T>): int {
    if s.phase == Awaiting || s.phase == Cancelling then s.popped - 1 else s.popped
  }

  /** On the way to a normal return, the results are the values of the joined tasks, in push order. */
  ghost predicate ResultsSoFar<T>(s: State<T>) {
    s.phase in {RunningClosure, Draining, Awaiting, Returned} ==>
      && |s.results| == Joined(s)
      && forall k :: 0 <= k < |s.results| && k < |s.pushed| && s.pushed[k] < |s.tasks| ==>
           s.tasks[s.pushed[k]].outcome == Some(Value(s.results[k]))
  }

  /** Each agent's handles are pushed in the order in which it spawned. */
  ghost predicate PushOrder<T>(s: State<T>) {
    && (forall i, j :: 0 <= i < j < |s.pushed| && s.pushed[i] < |s.tasks| && s.pushed[j] < |s.tasks|
                       && s.tasks[s.pushed[i]].spawner == s.tasks[s.pushed[j]].spawner ==>
          s.pushed[i] < s.pushed[j])
    && (forall agent, k :: agent in s.spawning && 0 <= k < |s.pushed| && s.pushed[k] < |s.tasks|
                           && s.tasks[s.pushed[k]].spawner == agent ==>
          s.pushed[k] < s.spawning[agent])
  }

  ghost predicate AllDone<T>(s: State<T>) {
    forall t :: 0 <= t < |s.tasks| ==> s.tasks[t].outcome.Some?
  }

  ghost predicate Inv<T>(s: State<T>) {
    && Handles(s) && Ages(s) && PoppedAreDone(s) && ResultsSoFar(s) && PushOrder(s)
    && (s.phase == Returned || s.phase == Unwound ==> AllDone(s) && s.QueueIsEmpty())
  }

  /**
    The heart of it: when the queue is found empty and nothing is being awaited, every task is done. An
    unfinished task whose handle is not in the queue would have been spawned by an older unfinished task.
   */
  lemma {:induction false} EmptyQueueMeansDone<T>(s: State<T>, t: nat)
    requires Handles(s) && Ages(s) && PoppedAreDone(s)
    requires s.QueueIsEmpty() && s.phase != Awaiting && s.phase != Cancelling && Main !in s.spawning
    requires t < |s.tasks|
    ensures s.tasks[t].outcome.Some?
    decreases t
  {
    assert Handled(s, t);
    if t !in s.pushed {
      var agent :| agent in s.spawning && s.spawning[agent] == t;
      assert s.tasks[t].spawner == agent && agent.Worker?;
      EmptyQueueMeansDone(s, agent.task);
    }
  }

  // ---- each step keeps it --------------------------------------------------------------------

  lemma SpawnKeepsHandles<T>(s: State<T>, agent: Agent, executor: Executor)
    requires Handles(s) && Enabled(s, Spawn(agent, executor))
    ensures Handles(Step(s, Spawn(agent, executor)))
  {
    var u := Step(s, Spawn(agent, executor));
    forall t | 0 <= t < |u.tasks|
      ensures Handled(u, t)
    {
      if t < |s.tasks| {
        assert Handled(s, t);
        if t !in s.pushed {
          var a :| a in s.spawning && s.spawning[a] == t;
          assert a in u.spawning && u.spawning[a] == t;
        }
      } else {
        assert agent in u.spawning && u.spawning[agent] == t;
      }
    }
  }

  lemma SpawnKeepsOrder<T>(s: State<T>, agent: Agent, executor: Executor)
    requires Handles(s) && Ages(s) && PushOrder(s) && Enabled(s, Spawn(agent, executor))
    ensures Ages(Step(s, Spawn(agent, executor))) && PushOrder(Step(s, Spawn(agent, executor)))
  {
    hide Handled;
  }

  lemma SpawnKeepsInv<T>(s: State<T>, agent: Agent, executor: Executor)
    requires Inv(s) && Enabled(s, Spawn(agent, executor))
    ensures Inv(Step(s, Spawn(agent, executor)))
  {
    SpawnKeepsHandles(s, agent, executor);
    SpawnKeepsOrder(s, agent, executor);
    hide Ages, PushOrder, Handled;
  }

  lemma PushKeepsHandles<T>(s: State<T>, agent: Agent)
    requires Handles(s) && Enabled(s, Push(agent))
    ensures Handles(Step(s, Push(agent)))
  {
    var u := Step(s, Push(agent));
    forall t | 0 <= t < |u.tasks|
      ensures Handled(u, t)
    {
      assert Handled(s, t);
      if t in s.pushed {
        assert t in u.pushed;
      } else {
        var a :| a in s.spawning && s.spawning[a] == t;
        if a == agent {
          assert u.pushed[|s.pushed|] == t;
        } else {
          assert a in u.spawning && u.spawning[a] == t;
        }
      }
    }
  }

  lemma PushKeepsInv<T>(s: State<T>, agent: Agent)
    requires Inv(s) && Enabled(s, Push(agent))
    ensures Inv(Step(s, Push(agent)))
  {
    PushKeepsHandles(s, agent);
    PushKeepsOrder(s, agent);
    hide PushOrder, Handled;
  }

  lemma PushKeepsOrder<T>(s: State<T>, agent: Agent)
    requires Handles(s) && PushOrder(s) && Enabled(s, Push(agent))
    ensures PushOrder(Step(s, Push(agent)))
  {
  }

  lemma FinishKeepsInv<T>(s: State<T>, t: nat, outcome: Outcome<T>)
    requires Inv(s) && Enabled(s, Finish(t, outcome))
    ensures Inv(Step(s, Finish(t, outcome)))
  {
    SettlingKeepsInv(s, t, outcome);
  }

  /** A live task that is not in the middle of a spawn comes to its end. */
  lemma SettlingKeepsInv<T>(s: State<T>, t: nat, outcome: Outcome<T>)
    requires Inv(s) && s.Live(t) && Worker(t) !in s.spawning
    ensures Inv(s.(tasks := s.tasks[t := s.tasks[t].(outcome := Some(outcome))]))
  {
    var u := s.(tasks := s.tasks[t := s.tasks[t].(outcome := Some(outcome))]);
    forall x | 0 <= x < |u.tasks|
      ensures Handled(u, x)
    {
      assert Handled(s, x);
    }
  }

  lemma SamePhaseFacts<T>(s: State<T>, u: State<T>)
    requires u == s.(phase := u.phase, popped := u.popped, results := u.results)
    ensures Ages(s) ==> Ages(u)
    ensures PushOrder(s) ==> PushOrder(u)
    ensures Handles(s) && (s.phase == RunningClosure ==> Main !in s.spawning) ==> Handles(u) && Main !in u.spawning
  {
    if Handles(s) && (s.phase == RunningClosure ==> Main !in s.spawning) {
      forall agent | agent in u.spawning
        ensures u.Active(agent)
      {
        assert s.Active(agent);
      }
      forall t | 0 <= t < |u.tasks|
        ensures Handled(u, t)
      {
        assert Handled(s, t);
      }
    }
  }

  lemma AllAreDone<T>(s: State<T>)
    requires Handles(s) && Ages(s) && PoppedAreDone(s)
    requires s.QueueIsEmpty() && s.phase != Awaiting && s.phase != Cancelling && Main !in s.spawning
    ensures AllDone(s)
  {
    forall t | 0 <= t < |s.tasks|
      ensures s.tasks[t].outcome.Some?
    {
      EmptyQueueMeansDone(s, t);
    }
  }

  lemma ClosureEndKeepsInv<T>(s: State<T>, action: Action<T>)
    requires action == ClosureReturns || action == ClosurePanics
    requires Inv(s) && Enabled(s, action)
    ensures Inv(Step(s, action))
  {
    var u := Step(s, action);
    SamePhaseFacts(s, u);
    if u.phase == Returned {
      AllAreDone(u);
    }
  }

  lemma PopKeepsInv<T>(s: State<T>)
    requires Inv(s) && Enabled(s, Pop)
    ensures Inv(Step(s, Pop))
  {
    var u := Step(s, Pop);
    SamePhaseFacts(s, u);
    if s.QueueIsEmpty() {
      AllAreDone(s);
    }
  }

  lemma JoinKeepsInv<T>(s: State<T>)
    requires Inv(s) && Enabled(s, Join)
    ensures Inv(Step(s, Join))
  {
    SamePhaseFacts(s, Step(s, Join));
  }

  lemma JoinCancelledKeepsInv<T>(s: State<T>)
    requires Inv(s) && Enabled(s, JoinCancelled)
    ensures Inv(Step(s, JoinCancelled))
  {
    SamePhaseFacts(s, Step(s, JoinCancelled));
  }

  lemma StepKeepsInv<T>(s: State<T>, action: Action<T>)
    requires Inv(s) && Enabled(s, action)
    ensures Inv(Step(s, action))
  {
    hide Inv;
    match action {
      case Spawn(agent, executor) => SpawnKeepsInv(s, agent, executor);
      case Push(agent) => PushKeepsInv(s, agent);
      case Finish(t, outcome) => FinishKeepsInv(s, t, outcome);
      case ClosureReturns => ClosureEndKeepsInv(s, action);
      case ClosurePanics => ClosureEndKeepsInv(s, action);
      case Pop => PopKeepsInv(s);
      case Join => JoinKeepsInv(s);
      case Cancel => SettlingKeepsInv(s, s.pushed[s.popped - 1], Cancelled);
      case JoinCancelled => JoinCancelledKeepsInv(s);
    }
  }

  // ---- whole runs --------------------------------------------------------------------------

  /** Any interleaving of enabled actions. */
  ghost predicate Run<T>(states: seq<State<T>>, actions: seq<Action<T>>) {
    && |states| == |actions| + 1 && states[0] == Start()
    && forall k :: 0 <= k < |actions| ==> Enabled(states[k], actions[k]) && states[k + 1] == Step(states[k], actions[k])
  }

  lemma {:induction false} InvHolds<T>(states: seq<State<T>>, actions: seq<Action<T>>, k: nat)
    requires Run(states, actions) && k < |states|
    ensures Inv(states[k])
  {
    if k > 0 {
      InvHolds(states, actions, k - 1);
      StepKeepsInv(states[k - 1], actions[k - 1]);
    }
  }

  lemma NobodySpawns<T>(s: State<T>)
    requires Handles(s) && AllDone(s) && s.phase != RunningClosure
    ensures s.spawning == map[]
  {
    assert forall agent :: agent in s.spawning ==> s.Active(agent);
    assert forall agent :: agent !in s.spawning;
  }

  /**
    When the scope returns, every task ever spawned in it is done and gave a value, each handle was pushed
    exactly once, and the results are the values of the tasks in push order.
   */
  lemma ReturnedScopeIsComplete<T>(states: seq<State<T>>, actions: seq<Action<T>>)
    requires Run(states, actions) && states[|actions|].phase == Returned
    ensures var s := states[|actions|];
            && s.spawning == map[]
            && NoDuplicates(s.pushed) && (forall t: nat :: t in s.pushed <==> t < |s.tasks|)
            && |s.results| == |s.tasks| == |s.pushed|
            && forall k :: 0 <= k < |s.results| ==>
                 s.pushed[k] < |s.tasks| && s.tasks[s.pushed[k]].outcome == Some(Value(s.results[k]))
  {
    InvHolds(states, actions, |actions|);
    var s := states[|actions|];
    hide Run;
    NobodySpawns(s);
    forall t: nat
      ensures t in s.pushed <==> t < |s.tasks|
    {
      if t < |s.tasks| {
        assert Handled(s, t);
      }
    }
    PushedAreAll(s.pushed, |s.tasks|);
  }

  lemma PushedAreAll(pushed: seq<nat>, n: nat)
    requires NoDuplicates(pushed) && forall t: nat :: t in pushed <==> t < n
    ensures |pushed| == n
  {
    DistinctCount(pushed);
    assert ToSet(pushed) == Below(n);
  }

  function Below(n: nat): (r: set<nat>)
    ensures |r| == n && forall t: nat :: t in r <==> t < n
  {
    if n == 0 then {} else Below(n - 1) + {n - 1}
  }

  /** Even when something panicked, no task is left alive when the scope is gone. */
  lemma UnwoundScopeIsQuiet<T>(states: seq<State<T>>, actions: seq<Action<T>>)
    requires Run(states, actions) && states[|actions|].phase == Unwound
    ensures AllDone(states[|actions|]) && states[|actions|].spawning == map[]
  {
    InvHolds(states, actions, |actions|);
    var s := states[|actions|];
    NobodySpawns(s);
  }

  /** If only the closure spawns, the results come in the order of its spawns, however the tasks were scheduled. */
  lemma DirectSpawnsKeepOrder<T>(states: seq<State<T>>, actions: seq<Action<T>>)
    requires Run(states, actions) && states[|actions|].phase == Returned
    requires forall t :: 0 <= t < |states[|actions|].tasks| ==> states[|actions|].tasks[t].spawner == Main
    ensures var s := states[|actions|];
            && |s.results| == |s.tasks|
            && forall t :: 0 <= t < |s.tasks| ==> s.tasks[t].outcome == Some(Value(s.results[t]))
  {
    ReturnedScopeIsComplete(states, actions);
    InvHolds(states, actions, |actions|);
    var s := states[|actions|];
    hide Run;
    var counted := seq(|s.tasks|, k requires 0 <= k < |s.tasks| => k);
    assert StrictlySorted(s.pushed) && StrictlySorted(counted);
    assert forall t: nat :: t in counted <==> t < |s.tasks| by {
      forall t: nat | t < |s.tasks|
        ensures t in counted
      {
        assert counted[t] == t;
      }
    }
    SortedListsAreCanonical(s.pushed, counted);
  }
}
