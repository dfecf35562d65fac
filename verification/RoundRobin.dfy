/** SimpleExecutor's round-robin, its fairness, and its equivalence with Executor on self-waking tasks. */
module RoundRobin {
  import opened Common
  import opened Executors

  /**
   * Task::poll as an abstract step: W is everything the futures can see and change, so tasks may
   * share state and need never finish; the result is whether the task is Ready.
   */
  type Poller<!W> = (W, nat) -> (W, bool)

  datatype Poll = Poll(id: nat, ready: bool)

  // ----- SimpleExecutor

  datatype Simple<W> = Simple(world: W, queue: seq<nat>)

  function SimpleStep<W>(poll: Poller<W>, s: Simple<W>): (Simple<W>, Poll)
    requires s.queue != []
  {
    var id := s.queue[0];
    var (w, ready) := poll(s.world, id);
    (Simple(w, if ready then s.queue[1..] else s.queue[1..] + [id]), Poll(id, ready))
  }

  function After<W>(poll: Poller<W>, s: Simple<W>, n: nat): Simple<W>
    decreases n
  {
    if n == 0 || s.queue == [] then s else After(poll, SimpleStep(poll, s).0, n - 1)
  }

  /** The first n polls (fewer if the queue runs dry). */
  function Trace<W>(poll: Poller<W>, s: Simple<W>, n: nat): seq<Poll>
    decreases n
  {
    if n == 0 || s.queue == [] then []
    else [SimpleStep(poll, s).1] + Trace(poll, SimpleStep(poll, s).0, n - 1)
  }

  function Ids(ps: seq<Poll>): (r: seq<nat>)
    ensures |r| == |ps| && forall i :: 0 <= i < |ps| ==> r[i] == ps[i].id
  {
    seq(|ps|, i requires 0 <= i < |ps| => ps[i].id)
  }

  lemma IdsSlice(ps: seq<Poll>, a: nat, b: nat)
    requires a <= b <= |ps|
    ensures Ids(ps[a..b]) == Ids(ps)[a..b]
  {
  }

  lemma StepDistinct<W>(poll: Poller<W>, s: Simple<W>)
    requires Distinct(s.queue) && s.queue != []
    ensures Distinct(SimpleStep(poll, s).0.queue)
  {
    var rest := s.queue[1..];
    assert forall i, j :: 0 <= i < j < |rest| ==> rest[i] != rest[j];
    assert forall i :: 0 <= i < |rest| ==> rest[i] != s.queue[0];
  }

  lemma {:induction false} StaysDistinct<W>(poll: Poller<W>, s: Simple<W>, n: nat)
    requires Distinct(s.queue)
    ensures Distinct(After(poll, s, n).queue)
    decreases n
  {
    hide SimpleStep, Distinct;
    if n > 0 && s.queue != [] {
      StepDistinct(poll, s);
      StaysDistinct(poll, SimpleStep(poll, s).0, n - 1);
    }
  }

  /** The next |queue| polls are the queue, in order, whatever the tasks answer. */
  lemma {:induction false} NextRound<W>(poll: Poller<W>, s: Simple<W>, k: nat)
    requires k <= |s.queue|
    ensures |Trace(poll, s, k)| == k
    ensures forall i :: 0 <= i < k ==> Trace(poll, s, k)[i].id == s.queue[i]
    decreases k
  {
    if k > 0 {
      var s' := SimpleStep(poll, s).0;
      NextRound(poll, s', k - 1);
      forall i | 0 < i < k ensures Trace(poll, s, k)[i].id == s.queue[i] {
        assert s'.queue[i - 1] == s.queue[1..][i - 1];
      }
    }
  }

  lemma {:induction false} TraceSplit<W>(poll: Poller<W>, s: Simple<W>, i: nat, n: nat)
    requires i <= n
    ensures Trace(poll, s, n) == Trace(poll, s, i) + Trace(poll, After(poll, s, i), n - i)
    ensures |Trace(poll, s, n)| > i ==> |Trace(poll, s, i)| == i
    decreases i
  {
    hide Trace, After, SimpleStep;
    Unfold(poll, s, n);
    Unfold(poll, s, i);
    if i > 0 && s.queue != [] {
      var (s', p) := SimpleStep(poll, s);
      TraceSplit(poll, s', i - 1, n - 1);
      var a, b := Trace(poll, s', i - 1), Trace(poll, After(poll, s', i - 1), n - i);
      assert [p] + (a + b) == ([p] + a) + b;
    } else {
      Unfold(poll, s, n - i);
      assert [] + Trace(poll, s, n) == Trace(poll, s, n);
    }
  }

  lemma Unfold<W>(poll: Poller<W>, s: Simple<W>, n: nat)
    ensures n > 0 && s.queue != [] ==>
              && Trace(poll, s, n) == [SimpleStep(poll, s).1] + Trace(poll, SimpleStep(poll, s).0, n - 1)
              && After(poll, s, n) == After(poll, SimpleStep(poll, s).0, n - 1)
    ensures n == 0 || s.queue == [] ==> Trace(poll, s, n) == [] && After(poll, s, n) == s
  {
  }

  /**
   * Fairness: between two consecutive polls of a task, every task that was still live is polled
   * exactly once, in queue order; so the gap lists the other live tasks without repetition.
   */
  lemma BetweenPolls<W>(poll: Poller<W>, s: Simple<W>, n: nat, i: nat, j: nat)
    requires Distinct(s.queue)
    requires i < j < |Trace(poll, s, n)|
    requires Trace(poll, s, n)[i].id == Trace(poll, s, n)[j].id
    requires forall k :: i < k < j ==> Trace(poll, s, n)[k].id != Trace(poll, s, n)[i].id
    ensures var t := Ids(Trace(poll, s, n));
            var live := After(poll, s, i + 1).queue;
            && live == t[i + 1..j] + [t[i]]
            && Distinct(live)
  {
    hide Trace, SimpleStep, After;
    var si := After(poll, s, i);
    TraceLength(poll, s, n);
    TraceSplit(poll, s, i, n);
    AfterStep(poll, s, i);
    StaysDistinct(poll, s, i);
    var t, u := Trace(poll, s, n), Trace(poll, si, n - i);
    assert u == t[i..];
    UntilNextPoll(poll, si, n - i, j - i);
    assert u[1..j - i] == t[i + 1..j];
    IdsSlice(u, 1, j - i);
    IdsSlice(t, i + 1, j);
    StaysDistinct(poll, s, i + 1);
  }

  lemma TraceHead<W>(poll: Poller<W>, s: Simple<W>, n: nat)
    requires Trace(poll, s, n) != []
    ensures n > 0 && s.queue != []
    ensures Trace(poll, s, n)[0].id == s.queue[0]
    ensures Trace(poll, s, n)[1..] == Trace(poll, SimpleStep(poll, s).0, n - 1)
  {
  }

  /** The same, for the task polled first. */
  lemma UntilNextPoll<W>(poll: Poller<W>, s: Simple<W>, n: nat, j: nat)
    requires Distinct(s.queue)
    requires 0 < j < |Trace(poll, s, n)| && Trace(poll, s, n)[j].id == Trace(poll, s, n)[0].id
    requires forall k :: 0 < k < j ==> Trace(poll, s, n)[k].id != Trace(poll, s, n)[0].id
    ensures s.queue != []
    ensures var t := Ids(Trace(poll, s, n));
            SimpleStep(poll, s).0.queue == t[1..j] + [t[0]]
  {
    hide Trace, SimpleStep;
    TraceHead(poll, s, n);
    var q, t := SimpleStep(poll, s).0.queue, Ids(Trace(poll, s, n));
    QueuedBehind(poll, s, n, j);
    assert q == t[1..j] + [t[0]];
  }

  lemma QueuedBehind<W>(poll: Poller<W>, s: Simple<W>, n: nat, j: nat)
    requires Distinct(s.queue) && s.queue != []
    requires 0 < j < |Trace(poll, s, n)| && Trace(poll, s, n)[j].id == s.queue[0]
    requires forall k :: 0 < k < j ==> Trace(poll, s, n)[k].id != s.queue[0]
    ensures var q := SimpleStep(poll, s).0.queue;
            && |q| == j && q[j - 1] == s.queue[0]
            && forall i :: 0 <= i < j - 1 ==> q[i] == Trace(poll, s, n)[i + 1].id
  {
    hide Trace, SimpleStep;
    TraceHead(poll, s, n);
    var s1 := SimpleStep(poll, s).0;
    var t, u := Trace(poll, s, n), Trace(poll, s1, n - 1);
    assert forall i :: 0 <= i < |u| ==> u[i] == t[i + 1];
    NextPollIsQueued(poll, s1, s.queue[0], n - 1, j - 1);
    LastQueued(poll, s, j - 1);
    TraceLength(poll, s1, n - 1);
    FirstRound(poll, s1, j - 1, n - 1);
  }

  lemma FirstRound<W>(poll: Poller<W>, s: Simple<W>, k: nat, n: nat)
    requires k <= |s.queue| && k <= n
    ensures k <= |Trace(poll, s, n)|
    ensures forall i :: 0 <= i < k ==> Trace(poll, s, n)[i].id == s.queue[i]
  {
    NextRound(poll, s, k);
    TraceSplit(poll, s, k, n);
  }

  /** A task that has just been polled and is queued again is queued last. */
  lemma LastQueued<W>(poll: Poller<W>, s: Simple<W>, k: nat)
    requires Distinct(s.queue) && s.queue != []
    requires var q := SimpleStep(poll, s).0.queue; k < |q| && q[k] == s.queue[0]
    ensures |SimpleStep(poll, s).0.queue| == k + 1
  {
    var q, rest := SimpleStep(poll, s).0.queue, s.queue[1..];
    assert s.queue[0] !in rest;
    assert q == rest || q == rest + [s.queue[0]];
  }

  lemma {:induction false} TraceLength<W>(poll: Poller<W>, s: Simple<W>, n: nat)
    ensures |Trace(poll, s, n)| <= n
    decreases n
  {
    if n > 0 && s.queue != [] {
      TraceLength(poll, SimpleStep(poll, s).0, n - 1);
    }
  }

  lemma {:induction false} AfterStep<W>(poll: Poller<W>, s: Simple<W>, i: nat)
    ensures After(poll, s, i).queue != [] ==>
              After(poll, s, i + 1) == SimpleStep(poll, After(poll, s, i)).0
    decreases i
  {
    if i > 0 && s.queue != [] {
      AfterStep(poll, SimpleStep(poll, s).0, i - 1);
    }
  }

  /** If x is next polled at step k, it is now queued at position k. */
  lemma {:induction false} NextPollIsQueued<W>(poll: Poller<W>, s: Simple<W>, x: nat, n: nat, k: nat)
    requires k < |Trace(poll, s, n)| && Trace(poll, s, n)[k].id == x
    requires forall i :: 0 <= i < k ==> Trace(poll, s, n)[i].id != x
    ensures k < |s.queue| && s.queue[k] == x
    decreases k
  {
    hide Trace;
    TraceHead(poll, s, n);
    if k > 0 {
      var s' := SimpleStep(poll, s).0;
      var t, t' := Trace(poll, s, n), Trace(poll, s', n - 1);
      assert t[0].id != x;
      assert forall i :: 0 <= i < |t'| ==> t'[i] == t[i + 1];
      NextPollIsQueued(poll, s', x, n - 1, k - 1);
      assert s.queue[1..][k - 1] == x;
    }
  }

  // ----- Executor on tasks that wake themselves exactly when pending

  datatype Driven<W> = Driven(world: W, exec: Exec)

  /** One turn of the run_ready_tasks loop: pop, poll, self-wake during the poll if pending, return. */
  function Turn<W>(poll: Poller<W>, s: Driven<W>): Option<(Driven<W>, seq<Poll>)>
    requires Enabled(s.exec, Pop)
  {
    var e := Step(s.exec, Pop).value;
    match e.polling
    case None => Some((Driven(s.world, e), []))
    case Some(id) =>
      var (w, ready) := poll(s.world, id);
      if ready then Some((Driven(w, Step(e, Return(true)).value), [Poll(id, true)]))
      else match Step(e, Wake(id))
        case None => None
        case Some(e') => Some((Driven(w, Step(e', Return(false)).value), [Poll(id, false)]))
  }

  /** The polls of the first n turns; None if one of them panics. */
  function Turns<W>(poll: Poller<W>, s: Driven<W>, n: nat): Option<(Driven<W>, seq<Poll>)>
    decreases n
  {
    if n == 0 || !Enabled(s.exec, Pop) then Some((s, []))
    else match Turn(poll, s)
      case None => None
      case Some((s', ps)) =>
        match Turns(poll, s', n - 1)
        case None => None
        case Some((s'', rest)) => Some((s'', ps + rest))
  }

  ghost predicate InLockstep<W>(s: Driven<W>, r: Simple<W>) {
    && Inv(s.exec) && s.exec.polling.None?
    && s.world == r.world && s.exec.queue == r.queue && s.exec.tasks == Elems(r.queue) && Distinct(r.queue)
  }

  lemma TurnInLockstep<W>(poll: Poller<W>, s: Driven<W>, r: Simple<W>)
    requires InLockstep(s, r) && r.queue != []
    ensures Turn(poll, s).Some?
    ensures var (s', ps) := Turn(poll, s).value;
            var (r', p) := SimpleStep(poll, r);
            ps == [p] && InLockstep(s', r')
  {
    hide Inv;
    var id := r.queue[0];
    QueueBound(s.exec);
    assert id in Elems(r.queue);
    var e := Step(s.exec, Pop).value;
    StepKeepsInv(s.exec, Pop);
    var (w, ready) := poll(s.world, id);
    var rest := r.queue[1..];
    assert Distinct(rest);
    if ready {
      StepKeepsInv(e, Return(true));
      assert Elems(rest) == Elems(r.queue) - {id};
    } else {
      StepKeepsInv(e, Wake(id));
      StepKeepsInv(Step(e, Wake(id)).value, Return(false));
      assert Elems(rest + [id]) == Elems(r.queue);
      assert Distinct(rest + [id]);
    }
  }

  lemma QueueBound(s: Exec)
    requires Inv(s)
    ensures |s.queue| <= CAPACITY
  {
  }

  /**
   * On self-waking tasks the two executors cannot be told apart: the same polls with the same
   * answers, hence the same completion order, for any number of turns, and no panic.
   */
  lemma {:induction false} SameTrace<W>(poll: Poller<W>, s: Driven<W>, r: Simple<W>, n: nat)
    requires InLockstep(s, r)
    ensures Turns(poll, s, n).Some?
    ensures var (s', ps) := Turns(poll, s, n).value;
            ps == Trace(poll, r, n) && InLockstep(s', After(poll, r, n))
    decreases n
  {
    hide Inv, Step;
    if n > 0 && r.queue != [] {
      TurnInLockstep(poll, s, r);
      SameTrace(poll, Turn(poll, s).value.0, SimpleStep(poll, r).0, n - 1);
    }
  }

  /** The ids spawned by a sequence of events, in order. */
  function Spawned(es: seq<Event>): seq<nat> {
    if es == [] then []
    else (if es[0].Spawn? then [es[0].id] else []) + Spawned(es[1..])
  }

  predicate SetUp(es: seq<Event>) {
    forall i :: 0 <= i < |es| ==> es[i].Create? || es[i].Spawn?
  }

  /**
   * Creating and spawning tasks, interleaved in any way, gets through exactly when the spawned ones fit
   * the queue; they are then queued in the order they were spawned, and nothing else is live.
   */
  lemma {:induction false} SpawnAll(s: Exec, es: seq<Event>)
    requires Inv(s) && s.polling.None? && s.tasks == Elems(s.queue) && Distinct(s.queue)
    requires SetUp(es) && Possible(s, es)
    ensures Run(s, es).Some? <==> |s.queue| + |Spawned(es)| <= CAPACITY
    ensures Run(s, es).Some? ==>
              var s' := Run(s, es).value;
              && s'.queue == s.queue + Spawned(es) && s'.tasks == Elems(s'.queue) && Distinct(s'.queue)
              && Inv(s') && s'.polling.None?
    decreases |es|
  {
    hide Inv, Step, Run, Possible, Enabled, Elems, Distinct;
    QueueBound(s);
    RunUnfolds(s, es);
    if es == [] {
      assert s.queue + [] == s.queue;
    } else {
      PanicsIffFull(s, es[0]);
      var one: seq<nat> := if es[0].Spawn? then [es[0].id] else [];
      if Step(s, es[0]).Some? {
        SetUpStep(s, es[0]);
        SpawnAll(Step(s, es[0]).value, es[1..]);
        assert s.queue + one + Spawned(es[1..]) == s.queue + (one + Spawned(es[1..]));
      }
    }
  }

  lemma RunUnfolds(s: Exec, es: seq<Event>)
    requires Possible(s, es)
    ensures es == [] ==> Run(s, es) == Some(s)
    ensures es != [] ==>
              && Enabled(s, es[0])
              && var s' := Step(s, es[0]);
              && (s'.None? ==> Run(s, es) == None)
              && (s'.Some? ==> Possible(s'.value, es[1..]) && Run(s, es) == Run(s'.value, es[1..]))
  {
  }

  lemma SetUpStep(s: Exec, e: Event)
    requires Inv(s) && s.polling.None? && s.tasks == Elems(s.queue) && Distinct(s.queue)
    requires (e.Create? || e.Spawn?) && Enabled(s, e) && Step(s, e).Some?
    ensures var s' := Step(s, e).value;
            && s'.queue == s.queue + (if e.Spawn? then [e.id] else [])
            && s'.tasks == Elems(s'.queue) && Distinct(s'.queue) && Inv(s') && s'.polling.None?
  {
    StepKeepsInv(s, e);
    if e.Spawn? {
      assert e.id !in Elems(s.queue);
      assert Elems(s.queue + [e.id]) == Elems(s.queue) + {e.id};
      assert forall i :: 0 <= i < |s.queue| ==> s.queue[i] in Elems(s.queue);
    }
  }

  /**
   * The two executors side by side, from a new one: whatever tasks are created and spawned, Executor
   * panics exactly when more than 100 are, and otherwise makes the polls SimpleExecutor makes on the
   * same tasks, with the same answers, for every number of turns.
   */
  lemma SameTraceFromNew<W>(poll: Poller<W>, w: W, es: seq<Event>, n: nat)
    requires SetUp(es) && Possible(INITIAL, es)
    ensures Run(INITIAL, es).Some? <==> |Spawned(es)| <= 100
    ensures |Spawned(es)| <= 100 ==>
              var turns := Turns(poll, Driven(w, Run(INITIAL, es).value), n);
              && turns.Some?
              && turns.value.1 == Trace(poll, Simple(w, Spawned(es)), n)
              && turns.value.0.exec.queue == After(poll, Simple(w, Spawned(es)), n).queue
  {
    hide Turns, Trace, After, Run;
    SpawnAll(INITIAL, es);
    if |Spawned(es)| <= CAPACITY {
      assert [] + Spawned(es) == Spawned(es);
      SameTrace(poll, Driven(w, Run(INITIAL, es).value), Simple(w, Spawned(es)), n);
    }
  }
}
