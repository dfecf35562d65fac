/** Tasks that finish: both executors run them to completion, with the same, exactly sized, trace. */
module TaskExecutors {
  import opened Common
  import opened Executors
  import opened RoundRobin

  /** Pending polls each future still has ahead of it. */
  type Futures = map<nat, nat>

  function Left(w: Futures, id: nat): nat {
    if id in w then w[id] else 0
  }

  /** A future that is Pending Left times and then Ready. */
  function Countdown(w: Futures, id: nat): (Futures, bool) {
    if Left(w, id) > 0 then (w[id := Left(w, id) - 1], false) else (w, true)
  }

  /** How many polls the queued tasks need altogether. */
  function Total(w: Futures, q: seq<nat>): nat {
    if q == [] then 0 else 1 + Left(w, q[0]) + Total(w, q[1..])
  }

  lemma {:induction false} TotalAppend(w: Futures, q: seq<nat>, id: nat)
    ensures Total(w, q + [id]) == Total(w, q) + 1 + Left(w, id)
  {
    if q == [] {
      assert q + [id] == [id] && [id][1..] == [];
    } else {
      TotalAppend(w, q[1..], id);
      assert (q + [id])[1..] == q[1..] + [id];
    }
  }

  lemma {:induction false} TotalFrame(w: Futures, w': Futures, q: seq<nat>)
    requires forall i :: 0 <= i < |q| ==> Left(w', q[i]) == Left(w, q[i])
    ensures Total(w', q) == Total(w, q)
  {
    if q != [] {
      TotalFrame(w, w', q[1..]);
    }
  }

  lemma StepCountsDown(s: Simple<Futures>)
    requires s.queue != [] && Distinct(s.queue)
    ensures var s' := SimpleStep(Countdown, s).0;
            && Distinct(s'.queue)
            && Total(s'.world, s'.queue) == Total(s.world, s.queue) - 1
  {
    var id, rest := s.queue[0], s.queue[1..];
    var (w, ready) := Countdown(s.world, id);
    if !ready {
      TotalFrame(s.world, w, rest);
      TotalAppend(w, rest, id);
    }
  }

  /** run terminates, having made exactly as many polls as the tasks need. */
  lemma {:induction false} RunsToCompletion(s: Simple<Futures>)
    requires Distinct(s.queue)
    ensures var n := Total(s.world, s.queue);
            && After(Countdown, s, n).queue == []
            && |Trace(Countdown, s, n)| == n
    decreases Total(s.world, s.queue)
  {
    if s.queue != [] {
      StepCountsDown(s);
      RunsToCompletion(SimpleStep(Countdown, s).0);
    }
  }

  function Polls(t: seq<Poll>, id: nat): nat {
    if t == [] then 0 else (if t[0].id == id then 1 else 0) + Polls(t[1..], id)
  }

  /** Each queued task is polled one time more often than it is pending; no other task is polled. */
  lemma {:induction false} PollsPerTask(s: Simple<Futures>, id: nat)
    requires Distinct(s.queue)
    ensures Polls(Trace(Countdown, s, Total(s.world, s.queue)), id)
         == if id in s.queue then 1 + Left(s.world, id) else 0
    decreases Total(s.world, s.queue)
  {
    if s.queue != [] {
      hide SimpleStep, Countdown, Left;
      StepCountsDown(s);
      StepForTask(s, id);
      var (s', p) := SimpleStep(Countdown, s);
      PollsPerTask(s', id);
      var n := Total(s.world, s.queue);
      Unfold(Countdown, s, n);
      assert Trace(Countdown, s, n)[1..] == Trace(Countdown, s', n - 1);
    }
  }

  /** What one turn means for a given task. */
  lemma StepForTask(s: Simple<Futures>, id: nat)
    requires Distinct(s.queue) && s.queue != []
    ensures var (s', p) := SimpleStep(Countdown, s);
            && p.id == s.queue[0]
            && (id != p.id ==> (id in s'.queue <==> id in s.queue) && Left(s'.world, id) == Left(s.world, id))
            && (id == p.id ==> (id in s'.queue <==> Left(s.world, id) > 0)
                               && Left(s.world, id) == (if id in s'.queue then 1 else 0) + Left(s'.world, id))
  {
    var rest := s.queue[1..];
    assert s.queue == [s.queue[0]] + rest;
    assert s.queue[0] !in rest;
  }

  class SimpleExecutor {
    var taskQueue: seq<nat>
    var futures: Futures

    constructor ()
      ensures taskQueue == []
    {
      taskQueue, futures := [], map[];
    }

    method Spawn(id: nat, pending: nat)
      modifies this
      ensures taskQueue == old(taskQueue) + [id] && futures == old(futures)[id := pending]
    {
      taskQueue, futures := taskQueue + [id], futures[id := pending];
    }

    /** One turn of the loop: pop, poll, push back if pending. */
    method RunOne() returns (p: Poll)
      requires taskQueue != []
      modifies this
      ensures (Simple(futures, taskQueue), p) == SimpleStep(Countdown, Simple(old(futures), old(taskQueue)))
    {
      var id := taskQueue[0];
      taskQueue := taskQueue[1..];
      var (after, ready) := Countdown(futures, id);
      futures := after;
      if !ready {
        taskQueue := taskQueue + [id];
      }
      p := Poll(id, ready);
    }

    method Run() returns (trace: seq<Poll>)
      requires Distinct(taskQueue)
      modifies this
      ensures taskQueue == []
      ensures var n := Total(old(futures), old(taskQueue));
              && trace == Trace(Countdown, Simple(old(futures), old(taskQueue)), n)
              && |trace| == n
    {
      hide Countdown, SimpleStep;
      ghost var s := Simple(futures, taskQueue);
      ghost var full := Trace(Countdown, s, Total(futures, taskQueue));
      RunsToCompletion(s);
      trace := [];
      while taskQueue != []
        invariant Distinct(taskQueue)
        invariant full == trace + Trace(Countdown, Simple(futures, taskQueue), Total(futures, taskQueue))
        decreases Total(futures, taskQueue)
      {
        StepCountsDown(Simple(futures, taskQueue));
        var p := RunOne();
        ghost var rest := Trace(Countdown, Simple(futures, taskQueue), Total(futures, taskQueue));
        assert trace + ([p] + rest) == trace + [p] + rest;
        trace := trace + [p];
      }
      assert trace + [] == trace;
    }
  }

  // ----- one turn of Executor's loop as events of the step machine

  /** What happens during a poll and at its end. */
  function PollEvents(ready: bool, wakes: seq<nat>): seq<Event> {
    if wakes == [] then [Return(ready)] else [Wake(wakes[0])] + PollEvents(ready, wakes[1..])
  }

  function TurnEvents(s: Exec, ready: bool, wakes: seq<nat>): seq<Event>
    requires s.queue != []
  {
    [Pop] + if s.queue[0] in s.tasks then PollEvents(ready, wakes) else []
  }

  lemma PollUnfolds(s: Exec, ready: bool, wakes: seq<nat>)
    requires s.polling.Some? && forall id :: id in wakes ==> id in s.wakers
    ensures Possible(s, PollEvents(ready, wakes))
    ensures wakes == [] ==> Run(s, PollEvents(ready, wakes)) == Step(s, Return(ready))
    ensures wakes != [] ==>
              var s' := Step(s, Wake(wakes[0]));
              && (s'.None? ==> Run(s, PollEvents(ready, wakes)) == None)
              && (s'.Some? ==> Possible(s'.value, PollEvents(ready, wakes[1..]))
                               && Run(s, PollEvents(ready, wakes)) == Run(s'.value, PollEvents(ready, wakes[1..])))
    decreases |wakes|
  {
    if wakes == [] {
      assert [Return(ready)][1..] == [];
    } else {
      assert PollEvents(ready, wakes)[1..] == PollEvents(ready, wakes[1..]);
      assert wakes[0] in wakes;
      if Step(s, Wake(wakes[0])).Some? {
        PollUnfolds(Step(s, Wake(wakes[0])).value, ready, wakes[1..]);
      }
    }
  }

  lemma TurnUnfolds(s: Exec, ready: bool, wakes: seq<nat>)
    requires s.queue != [] && s.polling.None? && forall id :: id in wakes ==> id in s.wakers || id == s.queue[0]
    ensures Possible(s, TurnEvents(s, ready, wakes))
    ensures var s1 := Step(s, Pop).value;
            if s.queue[0] in s.tasks
            then Possible(s1, PollEvents(ready, wakes))
                 && Run(s, TurnEvents(s, ready, wakes)) == Run(s1, PollEvents(ready, wakes))
            else Run(s, TurnEvents(s, ready, wakes)) == Some(s1)
  {
    var s1 := Step(s, Pop).value;
    if s.queue[0] in s.tasks {
      assert TurnEvents(s, ready, wakes)[1..] == PollEvents(ready, wakes);
      PollUnfolds(s1, ready, wakes);
    } else {
      assert TurnEvents(s, ready, wakes)[1..] == [];
    }
  }

  /** What a poll answers, which tasks are woken while it lasts, and which between this turn and the next. */
  datatype Answer = Answer(ready: bool, during: seq<nat>, after: seq<nat>)

  function WakeEvents(ids: seq<nat>): (es: seq<Event>)
    ensures |es| == |ids| && forall i :: 0 <= i < |ids| ==> es[i] == Wake(ids[i])
  {
    seq(|ids|, i requires 0 <= i < |ids| => Wake(ids[i]))
  }

  /** Every wake goes through a waker that exists by then. */
  predicate Answerable(s: Exec, answers: seq<Answer>)
    requires s.polling.None?
    decreases |answers|
  {
    answers == [] || s.queue == [] ||
    (&& (forall id :: id in answers[0].during ==> id in s.wakers || id == s.queue[0])
     && var es := TurnEvents(s, answers[0].ready, answers[0].during);
     && Possible(s, es)
     && (Run(s, es).Some? ==>
           var s1, more := Run(s, es).value, WakeEvents(answers[0].after);
           && s1.polling.None? && (forall id :: id in answers[0].after ==> id in s1.wakers)
           && Possible(s1, more)
           && (Run(s1, more).Some? ==>
                 Run(s1, more).value.polling.None? && Answerable(Run(s1, more).value, answers[1..]))))
  }

  /** The events of the loop while its queue lasts, one answer a turn. */
  function LoopEvents(s: Exec, answers: seq<Answer>): seq<Event>
    requires s.polling.None? && Answerable(s, answers)
    decreases |answers|
  {
    if answers == [] || s.queue == [] then []
    else
      var es := TurnEvents(s, answers[0].ready, answers[0].during);
      match Run(s, es)
      case None => es
      case Some(s1) =>
        var more := WakeEvents(answers[0].after);
        es + more + match Run(s1, more) case None => [] case Some(s2) => LoopEvents(s2, answers[1..])
  }

  /** The state after one turn of the loop and the wakes that follow it. */
  function LoopStep(s: Exec, a: Answer): Option<Exec>
    requires s.polling.None? && s.queue != [] && Answerable(s, [a])
  {
    match Run(s, TurnEvents(s, a.ready, a.during))
    case None => None
    case Some(s1) => Run(s1, WakeEvents(a.after))
  }

  lemma {:induction false} RunConcat(s: Exec, a: seq<Event>, b: seq<Event>)
    requires Possible(s, a) && (Run(s, a).Some? ==> Possible(Run(s, a).value, b))
    ensures Possible(s, a + b)
    ensures Run(s, a + b) == if Run(s, a).Some? then Run(Run(s, a).value, b) else None
    decreases |a|
  {
    hide Step, Enabled;
    if a == [] {
      assert a + b == b;
    } else {
      assert (a + b)[0] == a[0] && (a + b)[1..] == a[1..] + b;
      if Step(s, a[0]).Some? {
        RunConcat(Step(s, a[0]).value, a[1..], b);
      }
    }
  }

  lemma NoEvents(s: Exec)
    ensures Possible(s, []) && Run(s, []) == Some(s)
  {
  }

  lemma {:induction false} WakesPossible(s: Exec, ids: seq<nat>)
    requires forall id :: id in ids ==> id in s.wakers
    ensures Possible(s, WakeEvents(ids))
    ensures ids == [] ==> Run(s, WakeEvents(ids)) == Some(s)
    ensures ids != [] ==>
              var s' := Step(s, Wake(ids[0]));
              && (s'.None? ==> Run(s, WakeEvents(ids)) == None)
              && (s'.Some? ==> Possible(s'.value, WakeEvents(ids[1..]))
                               && Run(s, WakeEvents(ids)) == Run(s'.value, WakeEvents(ids[1..])))
    decreases |ids|
  {
    if ids != [] {
      assert ids[0] in ids;
      assert WakeEvents(ids)[1..] == WakeEvents(ids[1..]);
      if Step(s, Wake(ids[0])).Some? {
        WakesPossible(Step(s, Wake(ids[0])).value, ids[1..]);
      }
    }
  }

  lemma {:induction false} LoopPossible(s: Exec, answers: seq<Answer>)
    requires s.polling.None? && Answerable(s, answers)
    ensures Possible(s, LoopEvents(s, answers))
    ensures answers == [] || s.queue == [] ==> Run(s, LoopEvents(s, answers)) == Some(s)
    ensures answers != [] && s.queue != [] ==>
              && Answerable(s, [answers[0]])
              && var s' := LoopStep(s, answers[0]);
              && (s'.None? ==> Run(s, LoopEvents(s, answers)) == None)
              && (s'.Some? ==>
                    && s'.value.polling.None? && Answerable(s'.value, answers[1..])
                    && Possible(s'.value, LoopEvents(s'.value, answers[1..]))
                    && Run(s, LoopEvents(s, answers)) == Run(s'.value, LoopEvents(s'.value, answers[1..])))
    decreases |answers|
  {
    hide Step, TurnEvents, Run, Possible;
    if answers == [] || s.queue == [] {
      NoEvents(s);
    } else {
      var a := answers[0];
      assert [a][1..] == [];
      var es, more := TurnEvents(s, a.ready, a.during), WakeEvents(a.after);
      if Run(s, es).Some? {
        var s1 := Run(s, es).value;
        RunConcat(s, es, more);
        if Run(s1, more).Some? {
          var s2 := Run(s1, more).value;
          LoopPossible(s2, answers[1..]);
          RunConcat(s, es + more, LoopEvents(s2, answers[1..]));
        } else {
          assert es + more + [] == es + more;
        }
      }
    }
  }

  lemma PopEffect(s: Exec)
    requires Inv(s) && s.queue != [] && s.polling.None?
    ensures Step(s, Pop).Some?
    ensures var s', id := Step(s, Pop).value, s.queue[0];
            && Inv(s') && s'.queue == s.queue[1..] && s'.tasks == s.tasks && s'.nextId == s.nextId
            && s'.cache == (if id in s.tasks then s.cache + {id} else s.cache)
            && s'.wakers == (if id in s.tasks then s.wakers + {id} else s.wakers)
            && s'.polling == if id in s.tasks then Some(id) else None
  {
    StepKeepsInv(s, Pop);
  }

  lemma WakeEffect(s: Exec, id: nat)
    requires Enabled(s, Wake(id))
    ensures Step(s, Wake(id)).Some? ==>
              Step(s, Wake(id)).value.polling == s.polling && Step(s, Wake(id)).value.wakers == s.wakers
  {
  }

  lemma ReturnEffect(s: Exec, ready: bool)
    requires Inv(s) && s.polling.Some?
    ensures Step(s, Return(ready)).Some?
    ensures var s', id := Step(s, Return(ready)).value, s.polling.value;
            && Inv(s') && s'.queue == s.queue && s'.nextId == s.nextId && s'.polling == None
            && s'.tasks == (if ready then s.tasks - {id} else s.tasks)
            && s'.cache == if ready then s.cache - {id} else s.cache
  {
    StepKeepsInv(s, Return(ready));
  }

  /** A turn on a live self-waking task is such a run. */
  lemma TurnIsRun<W>(poll: Poller<W>, s: Driven<W>)
    requires Enabled(s.exec, Pop) && s.exec.queue[0] in s.exec.tasks
    ensures var id := s.exec.queue[0];
            var (w, ready) := poll(s.world, id);
            var wakes := if ready then [] else [id];
            && Possible(s.exec, TurnEvents(s.exec, ready, wakes))
            && Run(s.exec, TurnEvents(s.exec, ready, wakes))
               == match Turn(poll, s) case None => None case Some((s', _)) => Some(s'.exec)
  {
    var id := s.exec.queue[0];
    var ready := poll(s.world, id).1;
    var wakes := if ready then [] else [id];
    TurnUnfolds(s.exec, ready, wakes);
    var s1 := Step(s.exec, Pop).value;
    PollUnfolds(s1, ready, wakes);
    if !ready && Step(s1, Wake(id)).Some? {
      PollUnfolds(Step(s1, Wake(id)).value, ready, []);
    }
  }

  class Executor {
    var tasks: set<nat>
    var taskQueue: seq<nat>
    var wakerCache: set<nat>
    var nextId: nat
    var futures: Futures
    ghost var model: Exec

    /** The fields are those of the step machine, which may be in the middle of a poll. */
    ghost predicate Tied()
      reads this
    {
      && Inv(model)
      && tasks == model.tasks && taskQueue == model.queue && wakerCache == model.cache && nextId == model.nextId
    }

    ghost predicate Valid()
      reads this
    {
      Tied() && model.polling.None?
    }

    constructor ()
      ensures Valid() && model == INITIAL
    {
      tasks, taskQueue, wakerCache, nextId, futures, model := {}, [], {}, 0, map[], INITIAL;
    }

    /** TaskId::new and Task::new: a fresh id, owned by the caller until spawned. */
    method NewTask(pending: nat) returns (id: nat)
      requires Valid()
      modifies this
      ensures Valid() && model == Step(old(model), Create).value && id == old(model).nextId
      ensures futures == old(futures)[id := pending]
    {
      id := nextId;
      nextId := nextId + 1;
      StepKeepsInv(model, Create);
      model := Step(model, Create).value;
      futures := futures[id := pending];
    }

    /** Insert and push; ok is false where the source panics. */
    method Spawn(id: nat) returns (ok: bool)
      requires Valid() && Enabled(model, Event.Spawn(id))
      modifies this
      ensures ok <==> |old(taskQueue)| < CAPACITY
      ensures ok ==> Valid() && Step(old(model), Event.Spawn(id)) == Some(model)
      ensures ok ==> taskQueue == old(taskQueue) + [id] && tasks == old(tasks) + {id} && wakerCache == old(wakerCache)
      ensures futures == old(futures)
    {
      PanicsIffFull(model, Event.Spawn(id));
      if id in tasks {
        return false;
      }
      tasks := tasks + {id};
      ok := PushId(id);
      if ok {
        StepKeepsInv(model, Event.Spawn(id));
        model := Step(model, Event.Spawn(id)).value;
      }
    }

    method PushId(id: nat) returns (ok: bool)
      modifies `taskQueue
      ensures ok <==> |old(taskQueue)| < CAPACITY
      ensures taskQueue == if ok then old(taskQueue) + [id] else old(taskQueue)
    {
      if |taskQueue| >= CAPACITY {
        return false;
      }
      taskQueue := taskQueue + [id];
      return true;
    }

    /** TaskWaker::wake_task, callable at any time through any surviving waker. */
    method WakeTask(id: nat) returns (ok: bool)
      requires Tied() && Enabled(model, Event.Wake(id))
      modifies this
      ensures ok <==> Step(old(model), Event.Wake(id)).Some?
      ensures ok <==> |old(taskQueue)| < CAPACITY
      ensures ok ==> Tied() && Step(old(model), Event.Wake(id)) == Some(model)
      ensures ok ==> taskQueue == old(taskQueue) + [id]
      ensures tasks == old(tasks) && wakerCache == old(wakerCache)
      ensures futures == old(futures)
    {
      PanicsIffFull(model, Event.Wake(id));
      ok := PushId(id);
      if ok {
        StepKeepsInv(model, Event.Wake(id));
        model := Step(model, Event.Wake(id)).value;
      }
    }

    /**
     * The body of the run_ready_tasks loop, on any queue: a stale id is dropped; a task is polled, and
     * whatever its poll answers and whichever wakes arrive during it, the outcome is that of the step
     * machine, panic included.
     */
    method RunOne(ready: bool, wakes: seq<nat>) returns (polled: Option<nat>, ok: bool)
      requires Valid() && taskQueue != []
      requires forall id :: id in wakes ==> id in model.wakers || id == taskQueue[0]
      modifies this
      ensures var id := old(taskQueue)[0];
              polled == if id in old(tasks) then Some(id) else None
      ensures Possible(old(model), TurnEvents(old(model), ready, wakes))
      ensures var after := Run(old(model), TurnEvents(old(model), ready, wakes));
              && ok == after.Some?
              && (ok ==> Valid() && model == after.value)
      ensures futures == old(futures)
    {
      hide Inv, Step, Run, Possible;
      TurnUnfolds(model, ready, wakes);
      PopEffect(model);
      var id := taskQueue[0];
      taskQueue := taskQueue[1..];
      model := Step(model, Pop).value;
      if id !in tasks {
        return None, true;
      }
      wakerCache := wakerCache + {id};
      assert wakes[0..] == wakes;
      for i := 0 to |wakes|
        invariant Tied() && model.polling == Some(id) && futures == old(futures)
        invariant forall x :: x in wakes ==> x in model.wakers
        invariant Possible(model, PollEvents(ready, wakes[i..]))
        invariant Run(model, PollEvents(ready, wakes[i..])) == Run(old(model), TurnEvents(old(model), ready, wakes))
      {
        PollUnfolds(model, ready, wakes[i..]);
        assert wakes[i..][0] == wakes[i] && wakes[i..][1..] == wakes[i + 1..];
        WakeEffect(model, wakes[i]);
        var pushed := WakeTask(wakes[i]);
        if !pushed {
          return Some(id), false;
        }
      }
      PollUnfolds(model, ready, wakes[|wakes|..]);
      ReturnEffect(model, ready);
      if ready {
        tasks := tasks - {id};
        wakerCache := wakerCache - {id};
      }
      model := Step(model, Return(ready)).value;
      return Some(id), true;
    }

    /** Wakes in a row; ok is false where the source panics. */
    method WakeAll(ids: seq<nat>) returns (ok: bool)
      requires Valid() && forall id :: id in ids ==> id in model.wakers
      modifies this
      ensures Possible(old(model), WakeEvents(ids))
      ensures var after := Run(old(model), WakeEvents(ids));
              && ok == after.Some?
              && (ok ==> Valid() && model == after.value)
      ensures futures == old(futures)
    {
      hide Inv, Step, Run, Possible;
      WakesPossible(model, ids);
      assert ids[0..] == ids;
      for i := 0 to |ids|
        invariant Valid() && futures == old(futures) && forall id :: id in ids ==> id in model.wakers
        invariant Possible(model, WakeEvents(ids[i..]))
        invariant Run(model, WakeEvents(ids[i..])) == Run(old(model), WakeEvents(ids))
      {
        WakesPossible(model, ids[i..]);
        assert ids[i..][0] == ids[i] && ids[i..][1..] == ids[i + 1..];
        WakeEffect(model, ids[i]);
        var pushed := WakeTask(ids[i]);
        if !pushed {
          return false;
        }
      }
      WakesPossible(model, ids[|ids|..]);
      return true;
    }

    /**
     * The run_ready_tasks loop on any tasks and any queue, duplicate and stale ids included, with wakes
     * during the polls and between the turns, for as many turns as there are answers: it is a run of the
     * step machine.
     */
    method RunLoop(answers: seq<Answer>) returns (ok: bool)
      requires Valid() && Answerable(model, answers)
      modifies this
      ensures Possible(old(model), LoopEvents(old(model), answers))
      ensures var after := Run(old(model), LoopEvents(old(model), answers));
              && ok == after.Some?
              && (ok ==> Valid() && model == after.value)
    {
      hide Inv, Step, Run, Possible, TurnEvents, LoopEvents, WakeEvents;
      LoopPossible(model, answers);
      var turn := 0;
      assert answers[0..] == answers;
      while turn < |answers| && taskQueue != []
        invariant turn <= |answers| && Valid() && Answerable(model, answers[turn..])
        invariant Possible(model, LoopEvents(model, answers[turn..]))
        invariant Run(model, LoopEvents(model, answers[turn..])) == Run(old(model), LoopEvents(old(model), answers))
      {
        LoopPossible(model, answers[turn..]);
        assert answers[turn..][0] == answers[turn] && answers[turn..][1..] == answers[turn + 1..];
        var polled, fine := RunOne(answers[turn].ready, answers[turn].during);
        if !fine {
          return false;
        }
        fine := WakeAll(answers[turn].after);
        if !fine {
          return false;
        }
        turn := turn + 1;
      }
      LoopPossible(model, answers[turn..]);
      return true;
    }

    /** One turn for a popped id whose task exists and wakes itself exactly when pending. */
    method RunSelfWaking() returns (p: Poll, ok: bool)
      requires Valid() && taskQueue != [] && InLockstep(Driven(futures, model), Simple(futures, taskQueue))
      modifies this
      ensures ok && Valid()
      ensures (Simple(futures, taskQueue), p) == SimpleStep(Countdown, Simple(old(futures), old(taskQueue)))
      ensures InLockstep(Driven(futures, model), Simple(futures, taskQueue))
    {
      hide Inv, Step;
      ghost var s := Driven(futures, model);
      TurnInLockstep(Countdown, s, Simple(futures, taskQueue));
      var id := taskQueue[0];
      assert id in Elems(taskQueue);
      var (after, ready) := Countdown(futures, id);
      var polled, fine := RunOne(ready, if ready then [] else [id]);
      TurnIsRun(Countdown, s);
      futures := after;
      return Poll(id, ready), fine;
    }

    /** run_ready_tasks on tasks that wake themselves when pending: SimpleExecutor's trace, no panic. */
    method RunReadyTasks() returns (trace: seq<Poll>, ok: bool)
      requires Valid() && Distinct(taskQueue) && tasks == Elems(taskQueue)
      modifies this
      ensures ok && Valid() && taskQueue == [] && tasks == {} && wakerCache == {}
      ensures var n := Total(old(futures), old(taskQueue));
              trace == Trace(Countdown, Simple(old(futures), old(taskQueue)), n) && |trace| == n
    {
      hide Inv, Countdown, SimpleStep;
      ghost var s := Simple(futures, taskQueue);
      ghost var full := Trace(Countdown, s, Total(futures, taskQueue));
      RunsToCompletion(s);
      trace, ok := [], true;
      while taskQueue != []
        invariant ok && Valid() && InLockstep(Driven(futures, model), Simple(futures, taskQueue))
        invariant full == trace + Trace(Countdown, Simple(futures, taskQueue), Total(futures, taskQueue))
        decreases Total(futures, taskQueue)
      {
        StepCountsDown(Simple(futures, taskQueue));
        var p, fine := RunSelfWaking();
        ghost var rest := Trace(Countdown, Simple(futures, taskQueue), Total(futures, taskQueue));
        assert trace + ([p] + rest) == trace + [p] + rest;
        trace, ok := trace + [p], fine;
      }
      assert trace + [] == trace;
      CacheIsLive(model);
    }
  }

  lemma CacheIsLive(s: Exec)
    requires Inv(s)
    ensures s.cache <= s.tasks
  {
  }
}
