/**
  Runs of a scope told from their actions alone: which spawn a handle stands for, which action a result comes
  from, and that no run gets stuck.
 */
module ScopeRuns {
  import opened Collections
  import opened TaskScope

  // ---- positions in the actions --------------------------------------------------------------

  function SpawnsBefore<T>(actions: seq<Action<T>>, n: nat): nat
    requires n <= |actions|
  {
    if n == 0 then 0 else SpawnsBefore(actions, n - 1) + if actions[n - 1].Spawn? then 1 else 0
  }

  function PushesBefore<T>(actions: seq<Action<T>>, n: nat): nat
    requires n <= |actions|
  {
    if n == 0 then 0 else PushesBefore(actions, n - 1) + if actions[n - 1].Push? then 1 else 0
  }

  /** Action `p` is the spawn of task `t`; tasks are numbered in the order of their spawns. */
  ghost predicate Makes<T>(actions: seq<Action<T>>, p: nat, t: nat)
    requires p < |actions|
  {
    actions[p].Spawn? && SpawnsBefore(actions, p) == t
  }

  /** Action `q` is a spawn whose handle its agent has not pushed before action `n`. */
  ghost predicate Unpushed<T>(actions: seq<Action<T>>, q: nat, n: nat)
    requires n <= |actions|
  {
    && q < n && actions[q].Spawn?
    && forall r :: q < r < n ==>
         (actions[r].Spawn? || actions[r].Push? ==> actions[r].agent != actions[q].agent)
  }

  /** Action `p` is the `k`-th push, of the handle of task `t`. */
  ghost predicate Delivers<T>(actions: seq<Action<T>>, p: nat, k: nat, t: nat)
    requires p < |actions|
  {
    && actions[p].Push? && PushesBefore(actions, p) == k
    && exists q :: 0 <= q < p && Makes(actions, q, t) && Unpushed(actions, q, p) && actions[q].agent == actions[p].agent
  }

  // ---- what the state records ----------------------------------------------------------------

  ghost predicate TaskTold<T>(actions: seq<Action<T>>, n: nat, t: nat, task: Task<T>)
    requires n <= |actions|
  {
    && (exists p :: 0 <= p < n && Makes(actions, p, t)
                    && task.spawner == actions[p].agent && task.executor == actions[p].executor)
    && (forall f :: 0 <= f < n && actions[f].Finish? && actions[f].task == t ==>
          task.outcome == Some(actions[f].outcome))
    && (task.outcome.Some? && task.outcome != Some(Cancelled) ==>
          exists f :: 0 <= f < n && actions[f] == Finish(t, task.outcome.value))
  }

  ghost predicate SpawnTold<T>(actions: seq<Action<T>>, n: nat, agent: Agent, t: nat)
    requires n <= |actions|
  {
    exists q :: 0 <= q < n && Makes(actions, q, t) && Unpushed(actions, q, n) && actions[q].agent == agent
  }

  ghost predicate PushTold<T>(actions: seq<Action<T>>, n: nat, k: nat, t: nat)
    requires n <= |actions|
  {
    exists p :: 0 <= p < n && Delivers(actions, p, k, t)
  }

  ghost predicate Tells<T>(actions: seq<Action<T>>, n: nat, s: State<T>)
    requires n <= |actions|
  {
    && |s.tasks| == SpawnsBefore(actions, n) && |s.pushed| == PushesBefore(actions, n)
    && (forall t :: 0 <= t < |s.tasks| ==> TaskTold(actions, n, t, s.tasks[t]))
    && (forall agent :: agent in s.spawning ==> SpawnTold(actions, n, agent, s.spawning[agent]))
    && (forall k :: 0 <= k < |s.pushed| ==> PushTold(actions, n, k, s.pushed[k]))
    && (forall f :: 0 <= f < n && actions[f].Finish? ==> actions[f].task < |s.tasks|)
  }

  // ---- and every step records it ---------------------------------------------------------------

  /** A task ends once; `outcome` is that of the step, or what it was before. */
  lemma TaskStays<T>(actions: seq<Action<T>>, n: nat, t: nat, task: Task<T>, outcome: Option<Outcome<T>>)
    requires n < |actions| && TaskTold(actions, n, t, task)
    requires if actions[n].Finish? && actions[n].task == t then
               task.outcome.None? && outcome == Some(actions[n].outcome)
             else
               outcome == task.outcome || (task.outcome.None? && outcome == Some(Cancelled))
    ensures TaskTold(actions, n + 1, t, task.(outcome := outcome))
  {
    var p :| 0 <= p < n && Makes(actions, p, t)
             && task.spawner == actions[p].agent && task.executor == actions[p].executor;
    assert Makes(actions, p, t);
    hide Makes;
    if outcome.Some? && outcome != Some(Cancelled) {
      var f := if outcome == task.outcome then FinishOf(actions, n, t, task) else n;
      assert actions[f] == Finish(t, outcome.value);
    }
  }

  ghost function FinishOf<T>(actions: seq<Action<T>>, n: nat, t: nat, task: Task<T>): (f: nat)
    requires n <= |actions| && TaskTold(actions, n, t, task)
    requires task.outcome.Some? && task.outcome != Some(Cancelled)
    ensures f < n && actions[f] == Finish(t, task.outcome.value)
  {
    var f :| 0 <= f < n && actions[f] == Finish(t, task.outcome.value);
    f
  }

  lemma TaskMade<T>(actions: seq<Action<T>>, n: nat, t: nat, agent: Agent, executor: Executor)
    requires n < |actions| && actions[n] == Spawn(agent, executor) && SpawnsBefore(actions, n) == t
    requires forall f :: 0 <= f < n && actions[f].Finish? ==> actions[f].task < t
    ensures TaskTold(actions, n + 1, t, Task(agent, executor, None))
    ensures SpawnTold(actions, n + 1, agent, t)
  {
    assert Makes(actions, n, t) && Unpushed(actions, n, n + 1);
  }

  lemma SpawnStays<T>(actions: seq<Action<T>>, n: nat, agent: Agent, t: nat)
    requires n < |actions| && SpawnTold(actions, n, agent, t)
    requires actions[n].Spawn? || actions[n].Push? ==> actions[n].agent != agent
    ensures SpawnTold(actions, n + 1, agent, t)
  {
    var q :| 0 <= q < n && Makes(actions, q, t) && Unpushed(actions, q, n) && actions[q].agent == agent;
    assert Makes(actions, q, t) && Unpushed(actions, q, n + 1);
  }

  lemma Delivered<T>(actions: seq<Action<T>>, n: nat, agent: Agent, t: nat)
    requires n < |actions| && SpawnTold(actions, n, agent, t) && actions[n] == Push(agent)
    ensures PushTold(actions, n + 1, PushesBefore(actions, n), t)
  {
    var q :| 0 <= q < n && Makes(actions, q, t) && Unpushed(actions, q, n) && actions[q].agent == agent;
    assert Makes(actions, q, t) && Unpushed(actions, q, n);
    assert Delivers(actions, n, PushesBefore(actions, n), t);
  }

  lemma StepTellsTasks<T>(actions: seq<Action<T>>, n: nat, s: State<T>)
    requires n < |actions| && Tells(actions, n, s) && Enabled(s, actions[n])
    ensures var u := Step(s, actions[n]);
            && |u.tasks| == SpawnsBefore(actions, n + 1)
            && (forall t :: 0 <= t < |u.tasks| ==> TaskTold(actions, n + 1, t, u.tasks[t]))
            && (forall f :: 0 <= f < n + 1 && actions[f].Finish? ==> actions[f].task < |u.tasks|)
  {
    hide TaskTold, SpawnTold, PushTold;
    var u := Step(s, actions[n]);
    forall t | 0 <= t < |u.tasks|
      ensures TaskTold(actions, n + 1, t, u.tasks[t])
    {
      if t == |s.tasks| {
        TaskMade(actions, n, t, actions[n].agent, actions[n].executor);
      } else {
        TaskStays(actions, n, t, s.tasks[t], u.tasks[t].outcome);
      }
    }
  }

  lemma StepTellsHandles<T>(actions: seq<Action<T>>, n: nat, s: State<T>)
    requires n < |actions| && Tells(actions, n, s) && Enabled(s, actions[n])
    ensures var u := Step(s, actions[n]);
            && |u.pushed| == PushesBefore(actions, n + 1)
            && (forall agent :: agent in u.spawning ==> SpawnTold(actions, n + 1, agent, u.spawning[agent]))
            && (forall k :: 0 <= k < |u.pushed| ==> PushTold(actions, n + 1, k, u.pushed[k]))
  {
    hide TaskTold, SpawnTold, Delivers;
    var u := Step(s, actions[n]);
    forall agent | agent in u.spawning
      ensures SpawnTold(actions, n + 1, agent, u.spawning[agent])
    {
      if actions[n].Spawn? && actions[n].agent == agent {
        TaskMade(actions, n, |s.tasks|, agent, actions[n].executor);
      } else {
        SpawnStays(actions, n, agent, u.spawning[agent]);
      }
    }
    if actions[n].Push? {
      Delivered(actions, n, actions[n].agent, s.spawning[actions[n].agent]);
    }
  }

  lemma {:induction false} RunTells<T>(states: seq<State<T>>, actions: seq<Action<T>>, n: nat)
    requires Run(states, actions) && n < |states|
    ensures Tells(actions, n, states[n])
  {
    if n > 0 {
      RunTells(states, actions, n - 1);
      StepTellsTasks(actions, n - 1, states[n - 1]);
      StepTellsHandles(actions, n - 1, states[n - 1]);
    }
  }

  /** Task `t` finishes with a value. */
  ghost predicate GivesValue<T>(actions: seq<Action<T>>, t: nat) {
    exists f :: 0 <= f < |actions| && actions[f].Finish? && actions[f].task == t && actions[f].outcome.Value?
  }

  /** The task whose handle is pushed `k`-th finishes with value `v`. */
  ghost predicate ResultFrom<T>(actions: seq<Action<T>>, k: nat, v: T) {
    exists p, f :: 0 <= p < |actions| && 0 <= f < |actions|
                   && actions[f].Finish? && actions[f].outcome == Value(v) && Delivers(actions, p, k, actions[f].task)
  }

  lemma ResultComes<T>(actions: seq<Action<T>>, s: State<T>, k: nat, v: T)
    requires Tells(actions, |actions|, s) && k < |s.pushed| && s.pushed[k] < |s.tasks|
    requires s.tasks[s.pushed[k]].outcome == Some(Value(v))
    ensures ResultFrom(actions, k, v) && GivesValue(actions, s.pushed[k])
  {
    hide Delivers;
    var t, n := s.pushed[k], |actions|;
    assert TaskTold(actions, n, t, s.tasks[t]) && PushTold(actions, n, k, t);
    hide Tells;
    var f := FinishOf(actions, n, t, s.tasks[t]);
    hide TaskTold;
    var p :| 0 <= p < n && Delivers(actions, p, k, t);
    assert actions[f].task == t && actions[f].outcome == Value(v);
  }

  /**
    What a scope returns, told from the actions of the run alone: as many results as spawns, every spawned task has
    finished with a value, and result `k` is that of the task whose handle was pushed `k`-th.
   */
  lemma ResultsFollowActions<T>(states: seq<State<T>>, actions: seq<Action<T>>)
    requires Run(states, actions) && states[|actions|].phase == Returned
    ensures var results, n := states[|actions|].results, |actions|;
            && |results| == SpawnsBefore(actions, n) == PushesBefore(actions, n)
            && (forall t :: 0 <= t < |results| ==> GivesValue(actions, t))
            && forall k :: 0 <= k < |results| ==> ResultFrom(actions, k, results[k])
  {
    ReturnedScopeIsComplete(states, actions);
    RunTells(states, actions, |actions|);
    var s := states[|actions|];
    hide Run, GivesValue, ResultFrom, TaskTold, PushTold, SpawnTold;
    forall k | 0 <= k < |s.results|
      ensures ResultFrom(actions, k, s.results[k]) && GivesValue(actions, s.pushed[k])
    {
      ResultComes(actions, s, k, s.results[k]);
    }
    forall t | 0 <= t < |s.results|
      ensures GivesValue(actions, t)
    {
      assert t in s.pushed;
    }
  }

  // ---- no run gets stuck -----------------------------------------------------------------------

  /** In every state a run can reach, something can still happen, unless the scope is gone. */
  lemma NeverStuck<T>(states: seq<State<T>>, actions: seq<Action<T>>) returns (action: Action<T>)
    requires Run(states, actions) && states[|actions|].phase != Returned && states[|actions|].phase != Unwound
    ensures Enabled(states[|actions|], action)
    ensures !action.Spawn?
  {
    InvHolds(states, actions, |actions|);
    var s := states[|actions|];
    hide Run;
    match s.phase {
      case RunningClosure => action := if Main in s.spawning then Push(Main) else ClosureReturns;
      case Draining => action := Pop;
      case Unwinding => action := Pop;
      case Awaiting => action := AwaitedMoves(s);
      case Cancelling => action := AwaitedMoves(s);
    }
  }

  lemma AwaitedMoves<T>(s: State<T>) returns (action: Action<T>)
    requires Inv(s) && (s.phase == Awaiting || s.phase == Cancelling)
    ensures Enabled(s, action) && !action.Spawn?
  {
    var t := s.pushed[s.popped - 1];
    assert Current(s, t);
    if s.tasks[t].outcome.Some? {
      action := if s.phase == Awaiting then Join else JoinCancelled;
    } else if Worker(t) in s.spawning {
      action := Push(Worker(t));
    } else if s.phase == Cancelling {
      action := Cancel;
    } else {
      action := Finish(t, Panic);
    }
  }
}
