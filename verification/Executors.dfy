/**
 * The two task executors as step machines.
 *
 * Executor: a task map, a bounded FIFO of task ids, a waker cache, and wakes that may arrive at any
 * step, during a poll or after the task has completed.  SimpleExecutor: a deque polled round-robin.
 */
module Executors {
  import opened Common

  const CAPACITY: nat := 100

  // ----- Executor

  /** What happened, in order: a poll, or a task coming back Ready. */
  datatype Entry = Polled(id: nat) | Completed(id: nat)

  datatype Exec = Exec(
    nextId: nat,            // TaskId::new's counter
    unspawned: set<nat>,    // created, not yet spawned
    tasks: set<nat>,
    queue: seq<nat>,
    cache: set<nat>,        // ids with a cached waker
    wakers: set<nat>,       // ids for which a waker was ever made; clones of it may live on
    polling: Option<nat>,   // the task being polled, if any
    // history, not kept by the source
    pushed: seq<nat>,
    popped: seq<nat>,
    notified: set<nat>,     // ids pushed since they were last popped
    log: seq<Entry>)

  const INITIAL: Exec := Exec(0, {}, {}, [], {}, {}, None, [], [], {}, [])

  datatype Event = Create | Spawn(id: nat) | Pop | Wake(id: nat) | Return(ready: bool)

  /** When an event can occur at all: ownership of tasks and wakers, and one poll at a time. */
  predicate Enabled(s: Exec, e: Event) {
    match e
    case Create => true
    case Spawn(id) => id in s.unspawned && s.polling.None?
    case Pop => s.polling.None? && s.queue != []
    case Wake(id) => id in s.wakers
    case Return(_) => s.polling.Some?
  }

  /** Push on the bounded queue; None is the panic of `expect` on a full one. */
  function Push(s: Exec, id: nat): Option<Exec> {
    if |s.queue| >= CAPACITY then None
    else Some(s.(queue := s.queue + [id], pushed := s.pushed + [id], notified := s.notified + {id}))
  }

  function Step(s: Exec, e: Event): Option<Exec>
    requires Enabled(s, e)
  {
    match e
    case Create => Some(s.(nextId := s.nextId + 1, unspawned := s.unspawned + {s.nextId}))
    case Spawn(id) =>
      if id in s.tasks then None
      else Push(s.(unspawned := s.unspawned - {id}, tasks := s.tasks + {id}), id)
    case Pop =>
      var id := s.queue[0];
      var s' := s.(queue := s.queue[1..], popped := s.popped + [id], notified := s.notified - {id});
      if id !in s.tasks then Some(s')
      else Some(s'.(cache := s.cache + {id}, wakers := s.wakers + {id}, polling := Some(id),
                    log := s.log + [Polled(id)]))
    case Wake(id) => Push(s, id)
    case Return(ready) =>
      var id := s.polling.value;
      if ready then
        Some(s.(tasks := s.tasks - {id}, cache := s.cache - {id}, polling := None, log := s.log + [Completed(id)]))
      else Some(s.(polling := None))
  }

  ghost predicate Finished(s: Exec, id: nat) {
    Completed(id) in s.log
  }

  ghost predicate Inv(s: Exec) {
    // conservation and order: what was pushed is what was popped, then what is queued
    && s.pushed == s.popped + s.queue
    && |s.queue| <= CAPACITY
    // cached wakers belong to live tasks, and the task being polled is live
    && s.cache <= s.tasks && (s.polling.Some? ==> s.polling.value in s.cache)
    // an id is unspawned, live or finished, never two of these
    && (forall id: nat ::
          id in s.unspawned || id in s.tasks || id in s.wakers || id in s.queue || Finished(s, id) ==> id < s.nextId)
    && s.unspawned !! s.tasks && s.unspawned !! s.wakers
    && (forall id: nat :: Finished(s, id) ==> id !in s.tasks && id !in s.unspawned)
    // no lost wake-up
    && (forall id: nat :: id in s.notified ==> id in s.queue)
    // no poll after completion
    && (forall i, j :: 0 <= i < j < |s.log| && s.log[i].Completed? ==> s.log[j] != Polled(s.log[i].id))
  }

  lemma StepKeepsInv(s: Exec, e: Event)
    requires Inv(s) && Enabled(s, e) && Step(s, e).Some?
    ensures Inv(Step(s, e).value)
  {
    var s' := Step(s, e).value;
    match e
    case Create =>
    case Spawn(id) =>
      assert s'.pushed == s'.popped + s'.queue;
    case Wake(id) =>
      assert s'.pushed == s'.popped + s'.queue;
    case Pop =>
      var id := s.queue[0];
      assert s.queue == [id] + s.queue[1..];
      assert s'.pushed == s'.popped + s'.queue;
      if id in s.tasks {
        PollLogged(s, id);
      }
    case Return(ready) =>
      if ready {
        CompletionLogged(s, s.polling.value);
      }
  }

  lemma PollLogged(s: Exec, id: nat)
    requires Inv(s) && id in s.tasks
    ensures var log := s.log + [Polled(id)];
            && (forall i, j :: 0 <= i < j < |log| && log[i].Completed? ==> log[j] != Polled(log[i].id))
            && (forall x :: Completed(x) in log <==> Completed(x) in s.log)
  {
    var log := s.log + [Polled(id)];
    forall i | 0 <= i < |s.log| && log[i].Completed? ensures log[i].id != id {
      assert Finished(s, s.log[i].id);
    }
  }

  lemma CompletionLogged(s: Exec, id: nat)
    requires Inv(s)
    ensures var log := s.log + [Completed(id)];
            && (forall i, j :: 0 <= i < j < |log| && log[i].Completed? ==> log[j] != Polled(log[i].id))
            && (forall x :: Completed(x) in log <==> Completed(x) in s.log || x == id)
  {
  }

  // ----- runs

  /** The state a sequence of events leads to; None once something panics. */
  function Run(s: Exec, es: seq<Event>): Option<Exec>
    requires Possible(s, es)
    decreases |es|
  {
    if es == [] then Some(s)
    else match Step(s, es[0])
      case None => None
      case Some(s') => Run(s', es[1..])
  }

  predicate Possible(s: Exec, es: seq<Event>)
    decreases |es|
  {
    es == [] || (Enabled(s, es[0]) && (Step(s, es[0]).Some? ==> Possible(Step(s, es[0]).value, es[1..])))
  }

  lemma {:induction false} RunKeepsInv(s: Exec, es: seq<Event>)
    requires Inv(s) && Possible(s, es) && Run(s, es).Some?
    ensures var s' := Run(s, es).value;
            && Inv(s')
            && s.pushed <= s'.pushed && s.popped <= s'.popped && s.log <= s'.log
    decreases |es|
  {
    if es != [] {
      StepKeepsInv(s, es[0]);
      var s1 := Step(s, es[0]).value;
      RunKeepsInv(s1, es[1..]);
      assert s.pushed <= s1.pushed && s.popped <= s1.popped && s.log <= s1.log;
    }
  }

  /** Every reachable state of a freshly made executor. */
  lemma Reachable(es: seq<Event>)
    requires Possible(INITIAL, es) && Run(INITIAL, es).Some?
    ensures Inv(Run(INITIAL, es).value)
  {
    RunKeepsInv(INITIAL, es);
  }

  /** The only panic on any run is a push on a full queue. */
  lemma PanicsIffFull(s: Exec, e: Event)
    requires Inv(s) && Enabled(s, e)
    ensures Step(s, e).None? <==> (e.Spawn? || e.Wake?) && |s.queue| == 100
  {
    if e.Spawn? {
      assert e.id !in s.tasks;
    }
  }

  /** Per task, pushes are pops plus what is still queued. */
  lemma PushesBalance(s: Exec, id: nat)
    requires Inv(s)
    ensures multiset(s.pushed)[id] == multiset(s.popped)[id] + multiset(s.queue)[id]
  {
  }

  /**
   * First in, first out: an id queued at position k is the (k+1)th to be popped from then on, so
   * within 100 pops, whatever else happens short of an overflow.
   */
  lemma PoppedWithinCapacity(s: Exec, es: seq<Event>, k: nat)
    requires Inv(s) && Possible(s, es) && Run(s, es).Some?
    requires k < |s.queue|
    ensures k < 100
    ensures var s' := Run(s, es).value;
            && |s.popped| <= |s'.popped|
            && (|s'.popped| > |s.popped| + k ==> s'.popped[|s.popped| + k] == s.queue[k])
            && (|s'.popped| <= |s.popped| + k ==>
                  |s.popped| + k - |s'.popped| < |s'.queue|
                  && s'.queue[|s.popped| + k - |s'.popped|] == s.queue[k])
  {
    RunKeepsInv(s, es);
    var s' := Run(s, es).value;
    var at := |s.popped| + k;
    assert s.pushed[at] == s.queue[k];
    assert s'.pushed[at] == s.pushed[at];
    assert s'.pushed == s'.popped + s'.queue;
  }

  /** Once Ready, never polled again, however many stale wakes arrive. */
  lemma NeverPolledAgain(s: Exec, es: seq<Event>, id: nat)
    requires Inv(s) && Possible(s, es) && Run(s, es).Some?
    requires Finished(s, id)
    ensures var log := Run(s, es).value.log;
            |s.log| <= |log| && Polled(id) !in log[|s.log|..]
  {
    RunKeepsInv(s, es);
    var log := Run(s, es).value.log;
    var i :| 0 <= i < |s.log| && s.log[i] == Completed(id);
    assert log[i] == Completed(id);
  }

  // ----- what the events alone determine

  /** The ids that spawns and wakes push, in order. */
  function PushedBy(es: seq<Event>): seq<nat> {
    if es == [] then []
    else (if es[0].Spawn? || es[0].Wake? then [es[0].id] else []) + PushedBy(es[1..])
  }

  function Pops(es: seq<Event>): nat {
    if es == [] then 0 else (if es[0].Pop? then 1 else 0) + Pops(es[1..])
  }

  function Creates(es: seq<Event>): nat {
    if es == [] then 0 else (if es[0].Create? then 1 else 0) + Creates(es[1..])
  }

  lemma {:induction false} HistoryOf(s: Exec, es: seq<Event>)
    requires Possible(s, es) && Run(s, es).Some?
    ensures var s' := Run(s, es).value;
            && s'.pushed == s.pushed + PushedBy(es)
            && |s'.popped| == |s.popped| + Pops(es)
            && s'.nextId == s.nextId + Creates(es)
    decreases |es|
  {
    if es != [] {
      var s1 := Step(s, es[0]).value;
      HistoryOf(s1, es[1..]);
      var one: seq<nat> := if es[0].Spawn? || es[0].Wake? then [es[0].id] else [];
      assert s1.pushed == s.pushed + one;
      assert s.pushed + one + PushedBy(es[1..]) == s.pushed + (one + PushedBy(es[1..]));
    }
  }

  /**
   * The queue is a function of the events: what was queued and what every spawn and every wake pushed,
   * duplicates included, less as many from the front as were popped; and each creation takes the next id.
   */
  lemma QueueFromEvents(s: Exec, es: seq<Event>)
    requires Inv(s) && Possible(s, es) && Run(s, es).Some?
    ensures var s' := Run(s, es).value;
            && s'.popped + s'.queue == s.popped + s.queue + PushedBy(es)
            && Pops(es) <= |s.queue + PushedBy(es)|
            && s'.queue == (s.queue + PushedBy(es))[Pops(es)..]
            && s'.nextId == s.nextId + Creates(es)
  {
    hide Run, Possible;
    RunKeepsInv(s, es);
    HistoryOf(s, es);
    InvPushed(s);
    var s' := Run(s, es).value;
    InvPushed(s');
    var all := s.queue + PushedBy(es);
    assert s.popped + s.queue + PushedBy(es) == s.popped + all;
    assert s'.queue == (s'.popped + s'.queue)[|s'.popped|..] == (s.popped + all)[|s.popped| + Pops(es)..];
  }

  lemma InvPushed(s: Exec)
    requires Inv(s)
    ensures s.pushed == s.popped + s.queue
  {
  }

  /** Which tasks exist and have a waker cached, from what was spawned, polled and completed. */
  ghost predicate CacheExact(s: Exec) {
    && (forall id: nat :: id in s.wakers <==> Polled(id) in s.log)
    && (forall id: nat :: id in s.cache <==> id in s.tasks && Polled(id) in s.log)
  }

  lemma StepTasks(s: Exec, e: Event)
    requires Inv(s) && CacheExact(s) && Enabled(s, e) && Step(s, e).Some?
    ensures var s' := Step(s, e).value;
            && CacheExact(s') && s.log <= s'.log
            && (forall id: nat :: id in s'.tasks <==>
                  (id in s.tasks || e == Spawn(id)) && Completed(id) !in s'.log[|s.log|..])
            && (e.Pop? ==> s'.log[|s.log|..] == if s.queue[0] in s.tasks then [Polled(s.queue[0])] else [])
            && (e.Return? ==> s'.log[|s.log|..] == if e.ready then [Completed(s.polling.value)] else [])
            && (!e.Pop? && !e.Return? ==> s'.log == s.log)
  {
    var s' := Step(s, e).value;
    if e.Pop? && s.queue[0] in s.tasks {
      assert forall id: nat :: Polled(id) in s'.log <==> Polled(id) in s.log || id == s.queue[0];
    }
    if e.Return? && e.ready {
      assert forall id: nat :: Polled(id) in s'.log <==> Polled(id) in s.log;
    }
  }

  /** A completed task is not spawned again. */
  lemma {:induction false} FinishedNotSpawned(s: Exec, es: seq<Event>, id: nat)
    requires Inv(s) && Possible(s, es) && Run(s, es).Some? && Finished(s, id)
    ensures Spawn(id) !in es
    decreases |es|
  {
    if es != [] {
      StepKeepsInv(s, es[0]);
      var s1 := Step(s, es[0]).value;
      assert s.log <= s1.log && Finished(s1, id);
      FinishedNotSpawned(s1, es[1..], id);
      assert es[0] != Spawn(id);
    }
  }

  /**
   * Over every run: a task exists exactly when it existed or was spawned and has not come back Ready
   * since, and its waker is cached exactly when it has been polled as well.
   */
  lemma {:induction false} TasksFromEvents(s: Exec, es: seq<Event>)
    requires Inv(s) && CacheExact(s) && Possible(s, es) && Run(s, es).Some?
    ensures var s' := Run(s, es).value;
            && CacheExact(s') && s.log <= s'.log
            && forall id: nat :: id in s'.tasks <==>
                 (id in s.tasks || Spawn(id) in es) && Completed(id) !in s'.log[|s.log|..]
    decreases |es|
  {
    hide Inv, Step, CacheExact, Enabled;
    if es != [] {
      StepTasks(s, es[0]);
      StepKeepsInv(s, es[0]);
      var s1 := Step(s, es[0]).value;
      TasksFromEvents(s1, es[1..]);
      var s' := Run(s, es).value;
      var first, rest := s1.log[|s.log|..], s'.log[|s1.log|..];
      assert s'.log[|s.log|..] == first + rest;
      forall id: nat ensures id in s'.tasks <==>
        (id in s.tasks || Spawn(id) in es) && Completed(id) !in s'.log[|s.log|..]
      {
        assert Spawn(id) in es <==> es[0] == Spawn(id) || Spawn(id) in es[1..];
        if Completed(id) in first {
          assert Finished(s1, id);
          FinishedNotSpawned(s1, es[1..], id);
        }
      }
    }
  }
}
