/** The thread pool as a monitor protocol: every section run under `mutex_` is one step, the gap
    between unlocking and notifying is kept, sleepers may wake spuriously, and the scheduler is
    arbitrary. Any number of workers and submitters take part. A task is an opaque action, named by
    the number of tasks accepted before it. */
module ThreadPool {
  import opened Counting

  datatype Worker =
    | Unlocked              // about to take the lock and test the wait predicate
    | Asleep                // inside cv_.wait
    | Running(task: nat)
    | Exited

  datatype Destructor =
    | NotCalled
    | Stopped               // stop_ set, notify_all still to come
    | Joining(next: nat)
    | Finished

  datatype State = State(
    toSpawn: nat,           // threads the constructor has still to start
    workers: seq<Worker>,
    queue: seq<nat>,
    stop: bool,
    notifies: nat,          // submitters that have unlocked but not yet notified
    destructor: Destructor,
    // history
    accepted: nat,
    started: seq<nat>,
    finished: seq<nat>)

  datatype Action =
    | Spawn
    | Submit                // the locked section of submit(): throws once stop_ is set
    | NotifyOne(w: nat)     // wakes worker w
    | NotifyNobody          // no one was asleep
    | Lock(w: nat)          // test the predicate: dequeue, exit or fall asleep
    | Spurious(w: nat)
    | Finish(w: nat)
    | SetStop
    | NotifyAll
    | Join

  function Init(threadCount: nat): State {
    State(if threadCount == 0 then 1 else threadCount, [], [], false, 0, NotCalled, 0, [], [])
  }

  predicate Enabled(s: State, a: Action) {
    match a
    case Spawn => s.toSpawn > 0
    case Submit => s.toSpawn == 0 && !s.destructor.Finished?
    case NotifyOne(w) => s.notifies > 0 && w < |s.workers| && s.workers[w].Asleep?
    case NotifyNobody => s.notifies > 0 && Asleep !in s.workers
    case Lock(w) => w < |s.workers| && s.workers[w].Unlocked?
    case Spurious(w) => w < |s.workers| && s.workers[w].Asleep?
    case Finish(w) => w < |s.workers| && s.workers[w].Running?
    case SetStop => s.toSpawn == 0 && s.destructor.NotCalled?
    case NotifyAll => s.destructor.Stopped?
    case Join => s.destructor.Joining? &&
                 (s.destructor.next < |s.workers| ==> s.workers[s.destructor.next].Exited?)
  }

  function Woken(workers: seq<Worker>): seq<Worker> {
    seq(|workers|, i requires 0 <= i < |workers| => if workers[i].Asleep? then Unlocked else workers[i])
  }

  function Step(s: State, a: Action): State
    requires Enabled(s, a)
  {
    match a
    case Spawn => s.(toSpawn := s.toSpawn - 1, workers := s.workers + [Unlocked])
    case Submit =>
      if s.stop then s
      else s.(queue := s.queue + [s.accepted], accepted := s.accepted + 1, notifies := s.notifies + 1)
    case NotifyOne(w) => s.(notifies := s.notifies - 1, workers := s.workers[w := Unlocked])
    case NotifyNobody => s.(notifies := s.notifies - 1)
    case Lock(w) =>
      if !(s.stop || s.queue != []) then s.(workers := s.workers[w := Asleep])
      else if s.stop && s.queue == [] then s.(workers := s.workers[w := Exited])
      else s.(queue := s.queue[1..], started := s.started + [s.queue[0]],
              workers := s.workers[w := Running(s.queue[0])])
    case Spurious(w) => s.(workers := s.workers[w := Unlocked])
    case Finish(w) =>
      s.(finished := s.finished + [s.workers[w].task], workers := s.workers[w := Unlocked])
    case SetStop => s.(stop := true, destructor := Stopped)
    case NotifyAll => s.(destructor := Joining(0), workers := Woken(s.workers))
    case Join =>
      s.(destructor := if s.destructor.next < |s.workers| then Joining(s.destructor.next + 1) else Finished)
  }

  // ---------------------------------------------------------------- runs

  ghost predicate Enableds(s: State, acts: seq<Action>)
    decreases |acts|
  {
    acts == [] || (Enabled(s, acts[0]) && Enableds(Step(s, acts[0]), acts[1..]))
  }

  ghost function Final(s: State, acts: seq<Action>): State
    requires Enableds(s, acts)
    decreases |acts|
  {
    if acts == [] then s else Final(Step(s, acts[0]), acts[1..])
  }

  ghost predicate Reachable(s: State) {
    exists threadCount: nat, acts :: Enableds(Init(threadCount), acts) && Final(Init(threadCount), acts) == s
  }

  // ---------------------------------------------------------------- the invariant

  lemma {:induction false} CountWoken(workers: seq<Worker>, t: nat)
    ensures Count(Woken(workers), Running(t)) == Count(workers, Running(t))
  {
    if workers != [] {
      CountWoken(workers[1..], t);
      assert Woken(workers)[1..] == Woken(workers[1..]);
    }
  }

  ghost predicate FifoInv(s: State) {
    && |s.started| + |s.queue| == s.accepted
    && (forall i :: 0 <= i < |s.started| ==> s.started[i] == i)
    && (forall i :: 0 <= i < |s.queue| ==> s.queue[i] == |s.started| + i)
  }

  /** Each dequeued task is finished or in the hands of one worker. */
  ghost predicate OnceInv(s: State) {
    forall t: nat :: Count(s.finished, t) + Count(s.workers, Running(t)) == if t < |s.started| then 1 else 0
  }

  /** No lost wakeup: each queued task is matched by a notification still to come or by a worker on
      its way to the queue, as long as anybody sleeps. */
  ghost predicate WakeupInv(s: State) {
    Asleep in s.workers ==> |s.queue| <= s.notifies + Count(s.workers, Unlocked)
  }

  ghost predicate ShutdownInv(s: State) {
    && s.toSpawn + |s.workers| > 0
    && (s.stop <==> !s.destructor.NotCalled?)
    && (s.stop ==> s.toSpawn == 0)
    && (s.destructor.Joining? || s.destructor.Finished? ==> Asleep !in s.workers)
    && (Exited in s.workers ==> s.stop && s.queue == [])
    && (s.destructor.Joining? ==> s.destructor.next <= |s.workers|)
    && (forall i :: 0 <= i < Joined(s) ==> s.workers[i].Exited?)
  }

  ghost function Joined(s: State): (n: nat)
    ensures n <= |s.workers|
  {
    match s.destructor
    case Joining(next) => if next <= |s.workers| then next else 0
    case Finished => |s.workers|
    case _ => 0
  }

  ghost predicate Inv(s: State) {
    FifoInv(s) && OnceInv(s) && WakeupInv(s) && ShutdownInv(s)
  }

  lemma OnceStep(s: State, a: Action)
    requires Inv(s) && Enabled(s, a)
    ensures OnceInv(Step(s, a))
  {
    var s' := Step(s, a);
    forall t: nat
      ensures Count(s'.finished, t) + Count(s'.workers, Running(t)) == if t < |s'.started| then 1 else 0
    {
      assert Count(s.finished, t) + Count(s.workers, Running(t)) == if t < |s.started| then 1 else 0;
      match a
      case Spawn => CountAppend(s.workers, Unlocked, Running(t));
      case NotifyOne(w) => CountUpdate(s.workers, w, Unlocked, Running(t));
      case Lock(w) => CountUpdate(s.workers, w, s'.workers[w], Running(t));
      case Spurious(w) => CountUpdate(s.workers, w, Unlocked, Running(t));
      case Finish(w) =>
        CountUpdate(s.workers, w, Unlocked, Running(t));
        CountAppend(s.finished, s.workers[w].task, t);
      case NotifyAll => CountWoken(s.workers, t);
      case _ =>
    }
  }

  lemma WakeupStep(s: State, a: Action)
    requires Inv(s) && Enabled(s, a)
    ensures WakeupInv(Step(s, a))
  {
    var s' := Step(s, a);
    match a
    case Spawn => CountAppend(s.workers, Unlocked, Unlocked);
    case NotifyOne(w) => CountUpdate(s.workers, w, Unlocked, Unlocked);
    case Lock(w) => CountUpdate(s.workers, w, s'.workers[w], Unlocked);
    case Spurious(w) => CountUpdate(s.workers, w, Unlocked, Unlocked);
    case Finish(w) => CountUpdate(s.workers, w, Unlocked, Unlocked);
    case _ =>
  }

  lemma ShutdownStep(s: State, a: Action)
    requires Inv(s) && Enabled(s, a)
    ensures ShutdownInv(Step(s, a))
  {
  }

  /** Every step of every worker, submitter and the destructor keeps the invariant. */
  lemma StepInv(s: State, a: Action)
    requires Inv(s) && Enabled(s, a)
    ensures Inv(Step(s, a))
  {
    OnceStep(s, a);
    WakeupStep(s, a);
    ShutdownStep(s, a);
  }

  lemma {:induction false} RunInv(s: State, acts: seq<Action>)
    requires Inv(s) && Enableds(s, acts)
    ensures Inv(Final(s, acts))
    decreases |acts|
  {
    if acts != [] {
      StepInv(s, acts[0]);
      RunInv(Step(s, acts[0]), acts[1..]);
    }
  }

  lemma ReachableInv(s: State)
    requires Reachable(s)
    ensures Inv(s)
  {
    var threadCount: nat, acts :| Enableds(Init(threadCount), acts) && Final(Init(threadCount), acts) == s;
    RunInv(Init(threadCount), acts);
  }

  // ---------------------------------------------------------------- the threads

  lemma {:induction false} ThreadsKept(s: State, acts: seq<Action>)
    requires Enableds(s, acts)
    ensures Final(s, acts).toSpawn + |Final(s, acts).workers| == s.toSpawn + |s.workers|
    decreases |acts|
  {
    if acts != [] {
      ThreadsKept(Step(s, acts[0]), acts[1..]);
    }
  }

  /** A pool of `threadCount` threads, one if none is asked for, starts just as many, all before the first
      submission; and its destructor returns when just as many have ended. */
  lemma ThreadsStarted(threadCount: nat, acts: seq<Action>)
    requires Enableds(Init(threadCount), acts)
    ensures var s, n := Final(Init(threadCount), acts), if threadCount == 0 then 1 else threadCount;
            && s.toSpawn + |s.workers| == n
            && (Enabled(s, Submit) || s.accepted > 0 || s.stop ==> |s.workers| == n)
            && (s.destructor.Finished? ==> Count(s.workers, Exited) == n)
  {
    var s := Final(Init(threadCount), acts);
    ThreadsKept(Init(threadCount), acts);
    assert Reachable(s);
    ReachableInv(s);
    AcceptedNeedsThreads(Init(threadCount), acts);
    if s.destructor.Finished? {
      AllExited(s.workers);
    }
  }

  lemma {:induction false} AcceptedNeedsThreads(s: State, acts: seq<Action>)
    requires Enableds(s, acts) && (s.accepted > 0 ==> s.toSpawn == 0)
    ensures Final(s, acts).accepted > 0 ==> Final(s, acts).toSpawn == 0
    decreases |acts|
  {
    if acts != [] {
      AcceptedNeedsThreads(Step(s, acts[0]), acts[1..]);
    }
  }

  lemma {:induction false} AllExited(workers: seq<Worker>)
    requires forall i :: 0 <= i < |workers| ==> workers[i].Exited?
    ensures Count(workers, Exited) == |workers|
  {
    if workers != [] {
      AllExited(workers[1..]);
    }
  }

  /** Who waits for whom: a client never waits; a worker waits only inside `wait`, where it may be notified
      whenever a notification is due and may wake by itself; a notification never waits; the destructor
      waits only for the thread it is joining. */
  lemma WhoWaits(s: State, w: nat)
    requires Reachable(s)
    ensures s.toSpawn == 0 && !s.destructor.Finished? ==> Enabled(s, Submit)
    ensures w < |s.workers| && s.workers[w].Asleep? ==>
              Enabled(s, Spurious(w)) && (s.notifies > 0 ==> Enabled(s, NotifyOne(w)))
    ensures w < |s.workers| && !s.workers[w].Asleep? && !s.workers[w].Exited? ==> Enabled(s, Lock(w)) || Enabled(s, Finish(w))
    ensures s.notifies > 0 ==> Enabled(s, NotifyNobody) || exists v :: Enabled(s, NotifyOne(v))
    ensures s.toSpawn == 0 && s.destructor.NotCalled? ==> Enabled(s, SetStop)
    ensures s.destructor.Stopped? ==> Enabled(s, NotifyAll)
    ensures s.destructor.Joining? && !Enabled(s, Join) ==>
              s.destructor.next < |s.workers| && !s.workers[s.destructor.next].Exited?
  {
    if Asleep in s.workers {
      var v :| 0 <= v < |s.workers| && s.workers[v] == Asleep;
      assert s.notifies > 0 ==> Enabled(s, NotifyOne(v));
    }
  }

  /** What a step leaves alone: other workers, except that `notify_all` wakes exactly the sleepers; and the
      queue, except that a submission adds to its end and a dequeue takes its front. */
  lemma StepTouches(s: State, a: Action, w: nat)
    requires Enabled(s, a) && w < |s.workers|
    ensures var s' := Step(s, a);
            && |s'.workers| == |s.workers| + (if a.Spawn? then 1 else 0)
            && (s'.workers[w] != s.workers[w] ==>
                  || a == NotifyOne(w) || a == Lock(w) || a == Spurious(w) || a == Finish(w)
                  || (a.NotifyAll? && s.workers[w].Asleep?))
            && (a == NotifyOne(w) || a == Spurious(w) || (a.NotifyAll? && s.workers[w].Asleep?) ==> s'.workers[w].Unlocked?)
            && (a.Submit? && !s.stop ==> s'.queue == s.queue + [s.accepted])
            && (a.Lock? && s.queue != [] ==> s'.queue == s.queue[1..] && s'.workers[a.w] == Running(s.queue[0]))
            && (!a.Submit? && !a.Lock? ==> s'.queue == s.queue)
  {
  }

  // ---------------------------------------------------------------- what the pool promises

  lemma NoLostWakeup(s: State)
    requires Reachable(s)
    ensures Asleep in s.workers ==> |s.queue| <= s.notifies + Count(s.workers, Unlocked)
    ensures s.destructor.Joining? || s.destructor.Finished? ==> Asleep !in s.workers
  {
    ReachableInv(s);
  }

  /** Work-conserving: while a task is queued, the pool is never idle without a wakeup under way. */
  lemma NeverStuck(s: State)
    requires Reachable(s) && s.toSpawn == 0 && s.queue != []
    ensures s.notifies > 0 || Unlocked in s.workers || exists w :: w in s.workers && w.Running?
  {
    ReachableInv(s);
    assert s.workers[0] in s.workers;
    CountZero(s.workers, Unlocked);
  }

  /** Tasks are dequeued in the order of acceptance, each at most once, and each dequeued task is
      either finished or in the hands of exactly one worker. */
  lemma FifoExactlyOnce(s: State)
    requires Reachable(s)
    ensures s.started == seq(|s.started|, i => i)
    ensures s.queue == seq(|s.queue|, i => |s.started| + i)
    ensures |s.started| + |s.queue| == s.accepted
    ensures forall t: nat ::
              Count(s.finished, t) + Count(s.workers, Running(t)) == if t < |s.started| then 1 else 0
  {
    ReachableInv(s);
  }

  /** When the destructor returns, every accepted task has been run to completion exactly once. */
  lemma DrainedOnDestruction(s: State)
    requires Reachable(s) && s.destructor.Finished?
    ensures s.queue == [] && |s.started| == s.accepted
    ensures forall t: nat :: Count(s.finished, t) == if t < s.accepted then 1 else 0
  {
    ReachableInv(s);
    assert s.workers[0] in s.workers;
    forall t: nat ensures Count(s.workers, Running(t)) == 0 {
      CountZero(s.workers, Running(t));
    }
  }

  // ---------------------------------------------------------------- work is conserved while running

  /** How far a worker is from going to sleep. */
  function Unrest(w: Worker): nat {
    match w
    case Running(_) => 2
    case Unlocked => 1
    case _ => 0
  }

  function UnrestSum(workers: seq<Worker>): nat {
    if workers == [] then 0 else Unrest(workers[0]) + UnrestSum(workers[1..])
  }

  lemma {:induction false} UnrestUpdate(workers: seq<Worker>, i: nat, w: Worker)
    requires i < |workers|
    ensures UnrestSum(workers[i := w]) + Unrest(workers[i]) == UnrestSum(workers) + Unrest(w)
  {
    if i > 0 {
      UnrestUpdate(workers[1..], i - 1, w);
      assert workers[i := w][1..] == workers[1..][i - 1 := w];
    }
  }

  lemma {:induction false} UnrestAppend(workers: seq<Worker>, w: Worker)
    ensures UnrestSum(workers + [w]) == UnrestSum(workers) + Unrest(w)
  {
    if workers != [] {
      UnrestAppend(workers[1..], w);
      assert (workers + [w])[1..] == workers[1..] + [w];
    }
  }

  /** Work at hand: tasks queued and running, threads to start, notifications and locks to come. */
  function Workload(s: State): nat {
    3 * |s.queue| + 2 * s.notifies + 2 * s.toSpawn + UnrestSum(s.workers)
  }

  /** What the pool does by itself: neither clients nor chance. */
  predicate Own(a: Action) {
    !a.Submit? && !a.Spurious? && !a.SetStop?
  }

  /** How much work a step brings in from outside. */
  function Brings(a: Action): nat {
    match a
    case Submit => 5
    case Spurious(_) => 1
    case _ => 0
  }

  lemma WorkloadStep(s: State, a: Action)
    requires Inv(s) && !s.stop && Enabled(s, a) && !a.SetStop?
    ensures Workload(Step(s, a)) + (if Own(a) then 1 else 0) <= Workload(s) + Brings(a) && !Step(s, a).stop
  {
    var s' := Step(s, a);
    match a
    case Spawn => UnrestAppend(s.workers, Unlocked);
    case NotifyOne(w) => UnrestUpdate(s.workers, w, Unlocked);
    case Lock(w) => UnrestUpdate(s.workers, w, s'.workers[w]);
    case Spurious(w) => UnrestUpdate(s.workers, w, Unlocked);
    case Finish(w) => UnrestUpdate(s.workers, w, Unlocked);
    case _ =>
  }

  function OwnSteps(acts: seq<Action>): nat {
    if acts == [] then 0 else (if Own(acts[0]) then 1 else 0) + OwnSteps(acts[1..])
  }

  function Brought(acts: seq<Action>): nat {
    if acts == [] then 0 else Brings(acts[0]) + Brought(acts[1..])
  }

  lemma {:induction false} WorkloadRun(s: State, acts: seq<Action>)
    requires Inv(s) && !s.stop && Enableds(s, acts) && SetStop !in acts
    ensures Workload(Final(s, acts)) + OwnSteps(acts) <= Workload(s) + Brought(acts)
    decreases |acts|
  {
    if acts != [] {
      assert acts[0] in acts;
      WorkloadStep(s, acts[0]);
      StepInv(s, acts[0]);
      WorkloadRun(Step(s, acts[0]), acts[1..]);
    }
  }

  /** While the pool runs, in whatever order steps are scheduled, it makes no more steps of its own than
      the work at hand and that brought in account for: left alone it comes to rest. */
  lemma ComesToRest(s: State, acts: seq<Action>)
    requires Reachable(s) && !s.stop && Enableds(s, acts) && SetStop !in acts
    ensures OwnSteps(acts) <= Workload(s) + Brought(acts)
  {
    ReachableInv(s);
    WorkloadRun(s, acts);
  }

  /** At rest all work is done: every worker sleeps, nothing is queued, and each task accepted so far
      has been run to completion exactly once. */
  lemma RestIsDone(s: State)
    requires Reachable(s) && !s.stop && forall a :: Own(a) ==> !Enabled(s, a)
    ensures s.queue == [] && (forall w <- s.workers :: w.Asleep?)
    ensures forall t: nat :: Count(s.finished, t) == if t < s.accepted then 1 else 0
  {
    ReachableInv(s);
    assert !Enabled(s, Spawn) && !Enabled(s, NotifyNobody);
    forall w: nat | w < |s.workers| ensures s.workers[w].Asleep? {
      assert !Enabled(s, Lock(w)) && !Enabled(s, Finish(w));
      assert s.workers[w] in s.workers;
    }
    assert !Enabled(s, NotifyOne(0)) && s.workers[0] in s.workers;
    CountZero(s.workers, Unlocked);
    forall t: nat ensures Count(s.workers, Running(t)) == 0 {
      CountZero(s.workers, Running(t));
    }
  }

  // ---------------------------------------------------------------- shutdown terminates

  function Rank(w: Worker): nat {
    match w
    case Exited => 0
    case Unlocked => 1
    case _ => 2
  }

  function RankSum(workers: seq<Worker>): nat {
    if workers == [] then 0 else Rank(workers[0]) + RankSum(workers[1..])
  }

  lemma {:induction false} RankUpdate(workers: seq<Worker>, i: nat, w: Worker)
    requires i < |workers|
    ensures RankSum(workers[i := w]) + Rank(workers[i]) == RankSum(workers) + Rank(w)
  {
    if i > 0 {
      RankUpdate(workers[1..], i - 1, w);
      assert workers[i := w][1..] == workers[1..][i - 1 := w];
    }
  }

  lemma {:induction false} RankWoken(workers: seq<Worker>)
    ensures RankSum(Woken(workers)) <= RankSum(workers)
  {
    if workers != [] {
      RankWoken(workers[1..]);
      assert Woken(workers)[1..] == Woken(workers[1..]);
    }
  }

  /** Work left after `stop_`: queued and running tasks, live workers, notifications and joins. */
  function Measure(s: State): int {
    2 * |s.queue| + RankSum(s.workers) + s.notifies +
    match s.destructor
    case NotCalled => 0
    case Stopped => |s.workers| + 3
    case Joining(next) => |s.workers| - next + 2
    case Finished => 0
  }

  lemma MeasureDecreases(s: State, a: Action)
    requires Inv(s) && s.stop && Enabled(s, a) && !a.Submit?
    ensures 0 <= Measure(Step(s, a)) < Measure(s) && Step(s, a).stop
  {
    var s' := Step(s, a);
    match a
    case NotifyOne(w) => RankUpdate(s.workers, w, Unlocked);
    case Lock(w) => RankUpdate(s.workers, w, s'.workers[w]);
    case Spurious(w) => RankUpdate(s.workers, w, Unlocked);
    case Finish(w) => RankUpdate(s.workers, w, Unlocked);
    case NotifyAll => RankWoken(s.workers);
    case _ =>
  }

  /** The steps of a run other than submissions. */
  function Working(acts: seq<Action>): nat {
    if acts == [] then 0 else (if acts[0].Submit? then 0 else 1) + Working(acts[1..])
  }

  /** After `stop_` every run makes at most `Measure` steps, whatever clients go on submitting: their
      submissions are refused and change nothing. */
  lemma ShutdownTerminates(s: State, acts: seq<Action>)
    requires Reachable(s) && s.stop && Enableds(s, acts)
    ensures Working(acts) <= Measure(s)
  {
    ReachableInv(s);
    StoppedRunBound(s, acts);
  }

  lemma {:induction false} StoppedRunBound(s: State, acts: seq<Action>)
    requires Inv(s) && s.stop && Enableds(s, acts)
    ensures Working(acts) <= Measure(s)
    decreases |acts|
  {
    if acts == [] {
      MeasureNotNegative(s);
    } else {
      StepInv(s, acts[0]);
      StoppedRunBound(Step(s, acts[0]), acts[1..]);
      if !acts[0].Submit? {
        MeasureDecreases(s, acts[0]);
      }
    }
  }

  lemma MeasureNotNegative(s: State)
    requires Inv(s)
    ensures Measure(s) >= 0
  {
  }

  /** And it never blocks: until the destructor returns, a step other than a spurious wakeup is
      possible, so a run that goes no further has drained the pool. */
  lemma ShutdownProgresses(s: State) returns (a: Action)
    requires Reachable(s) && s.stop && !s.destructor.Finished?
    ensures Enabled(s, a) && !a.Submit? && !a.Spurious?
  {
    ReachableInv(s);
    if s.destructor.Stopped? {
      a := NotifyAll;
    } else {
      var next := s.destructor.next;
      if next == |s.workers| || s.workers[next].Exited? {
        a := Join;
      } else if s.workers[next].Unlocked? {
        a := Lock(next);
      } else {
        assert s.workers[next] in s.workers;
        a := Finish(next);
      }
    }
  }

  // ---------------------------------------------------------------- what a submission gets

  lemma {:induction false} RunAppend(s: State, acts: seq<Action>, more: seq<Action>)
    requires Enableds(s, acts) && Enableds(Final(s, acts), more)
    ensures Enableds(s, acts + more) && Final(s, acts + more) == Final(Final(s, acts), more)
    decreases |acts|
  {
    if acts == [] {
      assert acts + more == more;
    } else {
      RunAppend(Step(s, acts[0]), acts[1..], more);
      assert (acts + more)[1..] == acts[1..] + more;
    }
  }

  lemma ReachableRun(s: State, acts: seq<Action>)
    requires Reachable(s) && Enableds(s, acts)
    ensures Reachable(Final(s, acts))
  {
    var threadCount: nat, before :| Enableds(Init(threadCount), before) && Final(Init(threadCount), before) == s;
    RunAppend(Init(threadCount), before, acts);
  }

  lemma {:induction false} AcceptedGrows(s: State, acts: seq<Action>)
    requires Enableds(s, acts)
    ensures s.accepted <= Final(s, acts).accepted
    decreases |acts|
  {
    if acts != [] {
      AcceptedGrows(Step(s, acts[0]), acts[1..]);
    }
  }

  /** A submission made before the destructor is called will have been dequeued in its turn and run to
      completion exactly once by the time the destructor has returned, whatever happens in between; one
      made later leaves no trace. */
  lemma SubmissionOutcome(s: State, acts: seq<Action>)
    requires Reachable(s) && Enabled(s, Submit) && Enableds(Step(s, Submit), acts)
    ensures s.destructor.NotCalled? && Final(Step(s, Submit), acts).destructor.Finished? ==>
              var end := Final(Step(s, Submit), acts);
              s.accepted < |end.started| && end.started[s.accepted] == s.accepted && Count(end.finished, s.accepted) == 1
    ensures !s.destructor.NotCalled? ==> Enableds(s, acts) && Final(Step(s, Submit), acts) == Final(s, acts)
  {
    ReachableInv(s);
    var s' := Step(s, Submit);
    assert Enableds(s, [Submit]) && Final(s, [Submit]) == s';
    ReachableRun(s, [Submit]);
    ReachableRun(s', acts);
    AcceptedGrows(s', acts);
    if Final(s', acts).destructor.Finished? {
      DrainedOnDestruction(Final(s', acts));
      ReachableInv(Final(s', acts));
    }
  }
}
