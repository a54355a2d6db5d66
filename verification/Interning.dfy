/**
  `Interner::intern` as a protocol between any number of threads: look the value up under the read lock;
  if it is missing, take the write lock, look again, and only then leak a copy and publish it. A
  reference is the index of a leaked copy in `heap`.
 */
module Interning {
  import opened Collections

  type Thread = nat
  type Ref = nat

  /** Where a thread stands in a call; threads that are not listed are not in a call. */
  datatype Local<V> =
    | WantsRead(value: V)
    | Reading(value: V)
    | WantsWrite(value: V)
    | Writing(value: V)
    | Missing(value: V)
    | Leaked(value: V, copy: Ref)

  datatype State<V> = State(
    threads: map<Thread, Local<V>>,
    readers: set<Thread>,
    writer: Option<Thread>,
    heap: seq<V>,
    published: set<Ref>,
    returned: seq<(V, Ref)>)

  datatype Action<V> =
    | Call(thread: Thread, value: V)
    | LockRead(thread: Thread)
    | Hit(thread: Thread, found: Ref)
    | Miss(thread: Thread)
    | LockWrite(thread: Thread)
    | HitAgain(thread: Thread, found: Ref)
    | MissAgain(thread: Thread)
    | Leak(thread: Thread)
    | LeakPanics(thread: Thread)
    | Publish(thread: Thread)

  function Start<V>(): State<V> {
    State(map[], {}, None, [], {}, [])
  }

  /** `HashSet::get`: comparison is by value. */
  predicate Finds<V(==)>(s: State<V>, value: V, r: Ref) {
    r in s.published && r < |s.heap| && s.heap[r] == value
  }

  predicate Absent<V(==)>(s: State<V>, value: V) {
    forall r :: r in s.published ==> !Finds(s, value, r)
  }

  predicate Enabled<V(==)>(s: State<V>, action: Action<V>) {
    match action
    case Call(t, _) => t !in s.threads
    case LockRead(t) => t in s.threads && s.threads[t].WantsRead? && s.writer.None?
    case Hit(t, r) => t in s.threads && s.threads[t].Reading? && Finds(s, s.threads[t].value, r)
    case Miss(t) => t in s.threads && s.threads[t].Reading? && Absent(s, s.threads[t].value)
    case LockWrite(t) => t in s.threads && s.threads[t].WantsWrite? && s.writer.None? && s.readers == {}
    case HitAgain(t, r) => t in s.threads && s.threads[t].Writing? && Finds(s, s.threads[t].value, r)
    case MissAgain(t) => t in s.threads && s.threads[t].Writing? && Absent(s, s.threads[t].value)
    case Leak(t) => t in s.threads && s.threads[t].Missing?
    case LeakPanics(t) => t in s.threads && s.threads[t].Missing?
    case Publish(t) => t in s.threads && s.threads[t].Leaked?
  }

  function Step<V(==)>(s: State<V>, action: Action<V>): State<V>
    requires Enabled(s, action)
  {
    var t := action.thread;
    match action
    case Call(_, value) => s.(threads := s.threads[t := WantsRead(value)])
    case LockRead(_) => s.(threads := s.threads[t := Reading(s.threads[t].value)], readers := s.readers + {t})
    case Hit(_, r) =>
      s.(threads := s.threads - {t}, readers := s.readers - {t}, returned := s.returned + [(s.threads[t].value, r)])
    case Miss(_) => s.(threads := s.threads[t := WantsWrite(s.threads[t].value)], readers := s.readers - {t})
    case LockWrite(_) => s.(threads := s.threads[t := Writing(s.threads[t].value)], writer := Some(t))
    case HitAgain(_, r) =>
      s.(threads := s.threads - {t}, writer := None, returned := s.returned + [(s.threads[t].value, r)])
    case MissAgain(_) => s.(threads := s.threads[t := Missing(s.threads[t].value)])
    case Leak(_) =>
      s.(threads := s.threads[t := Leaked(s.threads[t].value, |s.heap|)], heap := s.heap + [s.threads[t].value])
    case LeakPanics(_) =>
      // the lock is poisoned, which the next caller ignores
      s.(threads := s.threads - {t}, writer := None)
    case Publish(_) =>
      s.(threads := s.threads - {t}, writer := None, published := s.published + {s.threads[t].copy},
         returned := s.returned + [(s.threads[t].value, s.threads[t].copy)])
  }

  // ---- the invariant -----------------------------------------------------------------------

  predicate Exclusive<V>(local: Local<V>) {
    local.Writing? || local.Missing? || local.Leaked?
  }

  ghost predicate Locks<V>(s: State<V>) {
    && (forall t :: t in s.threads && s.threads[t].Reading? ==> t in s.readers)
    && (forall t :: t in s.threads && Exclusive(s.threads[t]) ==> s.writer == Some(t))
    && (s.writer.Some? ==> s.readers == {})
  }

  /** Every leaked copy is published, but for the one a thread is about to publish; no value is leaked twice. */
  ghost predicate Copies<V>(s: State<V>) {
    && NoDuplicates(s.heap)
    && (forall r :: r in s.published ==> r < |s.heap|)
    && (forall r :: 0 <= r < |s.heap| && r !in s.published ==>
          s.writer.Some? && s.writer.value in s.threads && s.threads[s.writer.value] == Leaked(s.heap[r], r))
    && (forall t :: t in s.threads && s.threads[t].Missing? ==> s.threads[t].value !in s.heap)
    && (forall t :: t in s.threads && s.threads[t].Leaked? ==>
          var local := s.threads[t];
          local.copy < |s.heap| && s.heap[local.copy] == local.value && local.copy !in s.published)
  }

  ghost predicate Answers<V>(s: State<V>) {
    forall k :: 0 <= k < |s.returned| ==>
      s.returned[k].1 in s.published && s.returned[k].1 < |s.heap| && s.heap[s.returned[k].1] == s.returned[k].0
  }

  ghost predicate Inv<V>(s: State<V>) {
    Locks(s) && Copies(s) && Answers(s)
  }

  lemma StepKeepsLocks<V>(s: State<V>, action: Action<V>)
    requires Locks(s) && Enabled(s, action)
    ensures Locks(Step(s, action))
  {
  }

  /** The second look decides: under the write lock nobody else can have leaked the value since. */
  lemma StepKeepsCopies<V>(s: State<V>, action: Action<V>)
    requires Locks(s) && Copies(s) && Enabled(s, action)
    ensures Copies(Step(s, action))
  {
    if action.MissAgain? {
      var value := s.threads[action.thread].value;
      forall r | 0 <= r < |s.heap|
        ensures s.heap[r] != value
      {
        assert r in s.published ==> !Finds(s, value, r);
      }
      hide Locks, Absent, Finds;
    }
  }

  lemma StepKeepsAnswers<V>(s: State<V>, action: Action<V>)
    requires Copies(s) && Answers(s) && Enabled(s, action)
    ensures Answers(Step(s, action))
  {
  }

  // ---- whole runs --------------------------------------------------------------------------

  ghost predicate Run<V>(states: seq<State<V>>, actions: seq<Action<V>>) {
    && |states| == |actions| + 1 && states[0] == Start()
    && forall k :: 0 <= k < |actions| ==> Enabled(states[k], actions[k]) && states[k + 1] == Step(states[k], actions[k])
  }

  lemma {:induction false} InvHolds<V>(states: seq<State<V>>, actions: seq<Action<V>>, k: nat)
    requires Run(states, actions) && k < |states|
    ensures Inv(states[k])
  {
    if k > 0 {
      InvHolds(states, actions, k - 1);
      hide Locks, Copies, Answers, Enabled, Step;
      StepKeepsLocks(states[k - 1], actions[k - 1]);
      StepKeepsCopies(states[k - 1], actions[k - 1]);
      StepKeepsAnswers(states[k - 1], actions[k - 1]);
    }
  }

  /** Two calls return the same reference iff they were given equal values, whatever ran in between. */
  lemma SameReferenceIffEqual<V>(states: seq<State<V>>, actions: seq<Action<V>>, i: nat, j: nat)
    requires Run(states, actions)
    requires i < |states[|actions|].returned| && j < |states[|actions|].returned|
    ensures var returned := states[|actions|].returned;
            returned[i].1 == returned[j].1 <==> returned[i].0 == returned[j].0
  {
    InvHolds(states, actions, |actions|);
    hide Run;
  }

  /** At most one copy of each value is ever leaked, and a returned reference is to an equal, published value. */
  lemma OneCopyPerValue<V>(states: seq<State<V>>, actions: seq<Action<V>>)
    requires Run(states, actions)
    ensures var s := states[|actions|];
            && NoDuplicates(s.heap)
            && forall k :: 0 <= k < |s.returned| ==> Finds(s, s.returned[k].0, s.returned[k].1)
  {
    InvHolds(states, actions, |actions|);
    hide Run;
  }

  /** A published reference stays valid for good: later steps neither move nor unpublish it. */
  lemma {:induction false} PublishedForGood<V>(states: seq<State<V>>, actions: seq<Action<V>>, i: nat, j: nat, r: Ref)
    requires Run(states, actions) && i <= j < |states|
    requires r in states[i].published && r < |states[i].heap|
    ensures r in states[j].published && r < |states[j].heap| && states[j].heap[r] == states[i].heap[r]
    decreases j
  {
    if i < j {
      PublishedForGood(states, actions, i, j - 1, r);
      assert states[j] == Step(states[j - 1], actions[j - 1]);
    }
  }

  // ---- runs told from their actions --------------------------------------------------------------

  /** Action `q` is the last call of thread `t` before action `n`, and it asks for `value`. */
  ghost predicate Asked<V>(actions: seq<Action<V>>, q: nat, t: Thread, value: V, n: nat)
    requires n <= |actions|
  {
    q < n && actions[q] == Call(t, value) && forall r :: q < r < n ==> !(actions[r].Call? && actions[r].thread == t)
  }

  ghost predicate Asks<V>(actions: seq<Action<V>>, t: Thread, value: V, n: nat)
    requires n <= |actions|
  {
    exists q :: 0 <= q < n && Asked(actions, q, t, value, n)
  }

  predicate Ends<V>(action: Action<V>) {
    action.Hit? || action.HitAgain? || action.Publish?
  }

  function ReturnsBefore<V>(actions: seq<Action<V>>, n: nat): nat
    requires n <= |actions|
  {
    if n == 0 then 0 else ReturnsBefore(actions, n - 1) + if Ends(actions[n - 1]) then 1 else 0
  }

  /** The `k`-th return answers a call of the same thread for this value. */
  ghost predicate AnswersCall<V>(actions: seq<Action<V>>, k: nat, value: V, n: nat)
    requires n <= |actions|
  {
    exists p :: 0 <= p < n && Ends(actions[p]) && ReturnsBefore(actions, p) == k
                && Asks(actions, actions[p].thread, value, p)
  }

  ghost predicate Tells<V>(actions: seq<Action<V>>, n: nat, s: State<V>)
    requires n <= |actions|
  {
    && (forall t :: t in s.threads ==> Asks(actions, t, s.threads[t].value, n))
    && |s.returned| == ReturnsBefore(actions, n)
    && forall k :: 0 <= k < |s.returned| ==> AnswersCall(actions, k, s.returned[k].0, n)
  }

  lemma CallStands<V>(actions: seq<Action<V>>, n: nat, t: Thread, value: V)
    requires n < |actions|
    requires if actions[n].Call? && actions[n].thread == t then actions[n].value == value
             else Asks(actions, t, value, n)
    ensures Asks(actions, t, value, n + 1)
  {
    if actions[n].Call? && actions[n].thread == t {
      assert Asked(actions, n, t, value, n + 1);
    } else {
      var q :| 0 <= q < n && Asked(actions, q, t, value, n);
      assert Asked(actions, q, t, value, n + 1);
    }
  }

  lemma StepTells<V>(actions: seq<Action<V>>, n: nat, s: State<V>)
    requires n < |actions| && Tells(actions, n, s) && Enabled(s, actions[n])
    ensures Tells(actions, n + 1, Step(s, actions[n]))
  {
    hide Asks, Finds, Absent;
    var u := Step(s, actions[n]);
    forall t | t in u.threads
      ensures Asks(actions, t, u.threads[t].value, n + 1)
    {
      CallStands(actions, n, t, u.threads[t].value);
    }
  }

  lemma {:induction false} RunTells<V>(states: seq<State<V>>, actions: seq<Action<V>>, n: nat)
    requires Run(states, actions) && n < |states|
    ensures Tells(actions, n, states[n])
  {
    if n > 0 {
      hide Tells, Step, Enabled;
      RunTells(states, actions, n - 1);
      StepTells(actions, n - 1, states[n - 1]);
    } else {
      hide AnswersCall, Asks;
    }
  }

  /** As many results as returns, and each is for the value that the returning thread had asked for. */
  lemma ReturnsAnswerCalls<V>(states: seq<State<V>>, actions: seq<Action<V>>)
    requires Run(states, actions)
    ensures var returned, n := states[|actions|].returned, |actions|;
            && |returned| == ReturnsBefore(actions, n)
            && forall k :: 0 <= k < |returned| ==> AnswersCall(actions, k, returned[k].0, n)
  {
    RunTells(states, actions, |actions|);
    hide Run;
  }

  /** A lock is held by a thread that is going to release it. */
  ghost predicate Holders<V>(s: State<V>) {
    && (s.writer.Some? ==> s.writer.value in s.threads && Exclusive(s.threads[s.writer.value]))
    && forall t :: t in s.readers ==> t in s.threads && s.threads[t].Reading?
  }

  lemma {:induction false} HoldersHold<V>(states: seq<State<V>>, actions: seq<Action<V>>, n: nat)
    requires Run(states, actions) && n < |states|
    ensures Holders(states[n])
  {
    if n > 0 {
      HoldersHold(states, actions, n - 1);
      InvHolds(states, actions, n - 1);
      StepKeepsHolders(states[n - 1], actions[n - 1]);
    }
  }

  lemma StepKeepsHolders<V>(s: State<V>, action: Action<V>)
    requires Locks(s) && Holders(s) && Enabled(s, action)
    ensures Holders(Step(s, action))
  {
    hide Finds, Absent;
  }

  /** While any thread is in a call, some call can go on: the two locks do not lead into a deadlock. */
  lemma NeverStuck<V>(states: seq<State<V>>, actions: seq<Action<V>>, t: Thread) returns (action: Action<V>)
    requires Run(states, actions) && t in states[|actions|].threads
    ensures Enabled(states[|actions|], action) && !action.Call?
  {
    HoldersHold(states, actions, |actions|);
    var s := states[|actions|];
    hide Run;
    var next := t;
    if s.writer.Some? {
      next := s.writer.value;
    } else if u :| u in s.readers {
      next := u;
    }
    var local := s.threads[next];
    match local {
      case WantsRead(_) => action := LockRead(next);
      case Reading(value) => action := Look(s, next, value, true);
      case WantsWrite(_) => action := LockWrite(next);
      case Writing(value) => action := Look(s, next, value, false);
      case Missing(_) => action := Leak(next);
      case Leaked(_, _) => action := Publish(next);
    }
  }

  lemma Look<V>(s: State<V>, t: Thread, value: V, first: bool) returns (action: Action<V>)
    requires t in s.threads && s.threads[t] == if first then Reading(value) else Writing(value)
    ensures Enabled(s, action) && !action.Call?
  {
    if Absent(s, value) {
      action := if first then Miss(t) else MissAgain(t);
    } else {
      var r :| r in s.published && Finds(s, value, r);
      action := if first then Hit(t, r) else HitAgain(t, r);
    }
  }
}
