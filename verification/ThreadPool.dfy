/** The worker pool: its critical sections as atomic steps, and what every interleaving keeps. */
module ThreadPool {
  import opened Wrappers

  type Job = nat
  type Worker = nat

  /** The pool between two atomic steps. A worker is about to take the mutex (`ready`: at the top
      of its loop, or woken and not yet holding it), asleep in the condition variable (`waiting`),
      executing the k-th enqueued job (`running`), or gone (`exited`). `enqueued`, `started` and
      `finished` are history. */
  datatype Pool = Pool(n: nat, jobs: seq<Job>, shutdown: bool, notified: bool, joined: nat,
                       ready: set<Worker>, waiting: set<Worker>, running: map<Worker, nat>,
                       exited: set<Worker>,
                       enqueued: seq<Job>, started: seq<Job>, finished: set<nat>)

  datatype Step =
    | Enqueue(fn: Job, wakes: Option<Worker>)  // push, then notify_one, under the mutex
    | SetShutdown                              // the flag, under the mutex
    | NotifyAll                                // after the mutex has been released
    | Join                                     // shutdown waits for the next thread in order
    | Section(w: Worker)                       // a worker's critical section, up to wait or unlock
    | Finish(w: Worker)                        // fn() returns
    | Spurious(w: Worker)                      // a wake-up without notification

  predicate Below(w: Worker, n: nat) { w < n }

  function Workers(n: nat): set<Worker> { set w: Worker | 0 <= w < n && Below(w, n) }

  function Start(n: nat): Pool {
    Pool(n, [], false, false, 0, Workers(n), {}, map[], {}, [], [], {})
  }

  predicate Enabled(s: Pool, step: Step) {
    match step
    case Enqueue(_, wakes) => if s.waiting == {} then wakes == None else wakes.Some? && wakes.value in s.waiting
    case SetShutdown => !s.shutdown
    case NotifyAll => s.shutdown && !s.notified
    case Join => s.notified && s.joined < s.n && s.joined in s.exited
    case Section(w) => w in s.ready
    case Finish(w) => w in s.running
    case Spurious(w) => w in s.waiting
  }

  function Woken(wakes: Option<Worker>): set<Worker> {
    if wakes.Some? then {wakes.value} else {}
  }

  function Apply(s: Pool, step: Step): Pool
    requires Enabled(s, step)
  {
    match step
    case Enqueue(fn, wakes) =>
      s.(jobs := s.jobs + [fn], enqueued := s.enqueued + [fn],
         waiting := s.waiting - Woken(wakes), ready := s.ready + Woken(wakes))
    case SetShutdown => s.(shutdown := true)
    case NotifyAll => s.(notified := true, ready := s.ready + s.waiting, waiting := {})
    case Join => s.(joined := s.joined + 1)
    case Section(w) =>
      if s.jobs != [] then
        s.(ready := s.ready - {w}, running := s.running[w := |s.started|],
           started := s.started + [s.jobs[0]], jobs := s.jobs[1..])
      else if s.shutdown then s.(ready := s.ready - {w}, exited := s.exited + {w})
      else s.(ready := s.ready - {w}, waiting := s.waiting + {w})
    case Finish(w) =>
      s.(ready := s.ready + {w}, running := s.running - {w}, finished := s.finished + {s.running[w]})
    case Spurious(w) => s.(waiting := s.waiting - {w}, ready := s.ready + {w})
  }

  /** Every worker is in exactly one place. */
  ghost predicate Partition(s: Pool) {
    && s.ready + s.waiting + s.running.Keys + s.exited == Workers(s.n)
    && s.ready !! s.waiting !! s.running.Keys !! s.exited
  }

  /** The started jobs are the first ones enqueued, each is being run by one worker or finished. */
  ghost predicate History(s: Pool) {
    && s.started + s.jobs == s.enqueued
    && RunsOnce(s.running, s.finished, |s.started|)
  }

  ghost predicate RunsOnce(running: map<Worker, nat>, finished: set<nat>, count: nat) {
    && (forall w | w in running :: running[w] < count && running[w] !in finished)
    && (forall v, w | v in running && w in running && v != w :: running[v] != running[w])
    && (forall k | k in finished :: k < count)
    && (forall k: nat | k < count && k !in finished :: exists w :: w in running && running[w] == k)
  }

  lemma RunsOneMore(running: map<Worker, nat>, finished: set<nat>, count: nat, w: Worker)
    requires RunsOnce(running, finished, count) && w !in running
    ensures RunsOnce(running[w := count], finished, count + 1)
  {
    var after := running[w := count];
    forall k: nat | k < count + 1 && k !in finished ensures exists v :: v in after && after[v] == k {
      if k == count {
        assert after[w] == k;
      } else {
        var v :| v in running && running[v] == k;
        assert after[v] == k;
      }
    }
  }

  lemma RunsOneLess(running: map<Worker, nat>, finished: set<nat>, count: nat, w: Worker)
    requires RunsOnce(running, finished, count) && w in running
    ensures RunsOnce(running - {w}, finished + {running[w]}, count)
  {
    var after := running - {w};
    forall k: nat | k < count && k !in finished + {running[w]} ensures exists v :: v in after && after[v] == k {
      var v :| v in running && running[v] == k;
      assert v != w && after[v] == k;
    }
  }

  /** While anyone sleeps, every queued job has an awake worker of its own on the way to it. */
  ghost predicate NoLostWakeup(s: Pool) {
    s.waiting != {} ==> |s.jobs| <= |s.ready|
  }

  ghost predicate ShutdownOrder(s: Pool) {
    && (s.notified ==> s.shutdown && s.waiting == {})
    && (s.exited != {} ==> s.shutdown)
    && s.joined <= s.n && (forall w: nat | w < s.joined :: w in s.exited)
  }

  ghost predicate Inv(s: Pool) {
    Partition(s) && History(s) && NoLostWakeup(s) && ShutdownOrder(s)
  }

  lemma StartInv(n: nat)
    ensures Inv(Start(n))
  {
  }

  lemma PartitionStep(s: Pool, step: Step)
    requires Partition(s) && Enabled(s, step)
    ensures Partition(Apply(s, step))
  {
  }

  lemma HistoryStep(s: Pool, step: Step)
    requires Partition(s) && History(s) && Enabled(s, step)
    ensures History(Apply(s, step))
  {
    match step {
      case Section(w) =>
        if s.jobs != [] {
          assert s.jobs == [s.jobs[0]] + s.jobs[1..];
          RunsOneMore(s.running, s.finished, |s.started|, w);
        }
      case Finish(w) => RunsOneLess(s.running, s.finished, |s.started|, w);
      case _ =>
    }
  }

  lemma WakeupStep(s: Pool, step: Step)
    requires Partition(s) && NoLostWakeup(s) && Enabled(s, step)
    ensures NoLostWakeup(Apply(s, step))
  {
  }

  lemma ShutdownStep(s: Pool, step: Step)
    requires Partition(s) && ShutdownOrder(s) && Enabled(s, step)
    ensures ShutdownOrder(Apply(s, step))
  {
  }

  ghost predicate ValidRun(s: Pool, steps: seq<Step>)
    decreases |steps|
  {
    steps == [] || (Enabled(s, steps[0]) && ValidRun(Apply(s, steps[0]), steps[1..]))
  }

  function RunOf(s: Pool, steps: seq<Step>): Pool
    requires ValidRun(s, steps)
    decreases |steps|
  {
    if steps == [] then s else RunOf(Apply(s, steps[0]), steps[1..])
  }

  /** Every interleaving keeps the invariants: jobs start in the order they were enqueued, each is
      taken by one worker, and no wake-up is lost. */
  lemma {:induction false} RunInv(s: Pool, steps: seq<Step>)
    requires Inv(s) && ValidRun(s, steps)
    ensures Inv(RunOf(s, steps)) && RunOf(s, steps).n == s.n
    decreases |steps|
  {
    if steps != [] {
      StepInv(s, steps[0]);
      RunInv(Apply(s, steps[0]), steps[1..]);
    }
  }

  /** Started jobs followed by the queue are the enqueued sequence, at every moment of every run. */
  lemma Fifo(n: nat, steps: seq<Step>)
    requires ValidRun(Start(n), steps)
    ensures var s := RunOf(Start(n), steps);
            s.started + s.jobs == s.enqueued && RunsOnce(s.running, s.finished, |s.started|)
  {
    StartInv(n);
    RunInv(Start(n), steps);
  }

  /** A non-empty queue never coexists with all live workers asleep and un-notified. */
  lemma NeverAllAsleep(n: nat, steps: seq<Step>)
    requires ValidRun(Start(n), steps)
    ensures var s := RunOf(Start(n), steps);
            s.jobs != [] && s.waiting != {} ==> exists w :: w in s.ready && Enabled(s, Section(w))
  {
    StartInv(n);
    RunInv(Start(n), steps);
    var s := RunOf(Start(n), steps);
    if s.jobs != [] && s.waiting != {} {
      assert s.ready != {};
      var w :| w in s.ready;
      assert Enabled(s, Section(w));
    }
  }

  ghost predicate AllExited(s: Pool) { s.exited == Workers(s.n) }

  /** Somewhere in the run a job is enqueued when no worker is left. */
  ghost predicate EnqueuesTooLate(s: Pool, steps: seq<Step>)
    requires ValidRun(s, steps)
    decreases |steps|
  {
    steps != [] &&
    ((steps[0].Enqueue? && AllExited(s)) || EnqueuesTooLate(Apply(s, steps[0]), steps[1..]))
  }

  /** Once no worker is left nothing is started any more and the queue only grows. */
  lemma {:induction false} NothingStarts(s: Pool, steps: seq<Step>)
    requires Inv(s) && AllExited(s) && ValidRun(s, steps)
    ensures var t := RunOf(s, steps);
            && t.started == s.started && s.jobs <= t.jobs && AllExited(t)
            && (t.jobs == s.jobs <==> !EnqueuesTooLate(s, steps))
    decreases |steps|
  {
    if steps != [] {
      var next := Apply(s, steps[0]);
      StepInv(s, steps[0]);
      assert !steps[0].Section? && !steps[0].Finish?;
      NothingStarts(next, steps[1..]);
    }
  }

  /** If no worker is left at the end, the queue is empty exactly when no job came too late. */
  lemma {:induction false} QueueDrained(s: Pool, steps: seq<Step>)
    requires Inv(s) && ValidRun(s, steps) && AllExited(RunOf(s, steps))
    requires AllExited(s) ==> s.jobs == []
    ensures RunOf(s, steps).jobs == [] <==> !EnqueuesTooLate(s, steps)
    decreases |steps|
  {
    if AllExited(s) {
      NothingStarts(s, steps);
    } else {
      StepInv(s, steps[0]);
      QueueDrained(Apply(s, steps[0]), steps[1..]);
    }
  }

  /** When shutdown() has joined every worker, every enqueued job has been started and has finished
      if and only if no job was enqueued when no worker was left. */
  lemma AllJobsRun(n: nat, steps: seq<Step>)
    requires ValidRun(Start(n), steps) && RunOf(Start(n), steps).joined == n
    ensures var s := RunOf(Start(n), steps);
            (s.started == s.enqueued && forall k: nat | k < |s.enqueued| :: k in s.finished)
            <==> !EnqueuesTooLate(Start(n), steps)
  {
    StartInv(n);
    RunInv(Start(n), steps);
    var s := RunOf(Start(n), steps);
    assert forall w | w in Workers(n) :: w in s.exited;
    assert s.running.Keys <= Workers(n) && s.running.Keys !! s.exited;
    assert s.running.Keys == {};
    assert AllExited(s);
    QueueDrained(Start(n), steps);
  }

  ghost predicate EnqueuesAfterShutdown(s: Pool, steps: seq<Step>)
    requires ValidRun(s, steps)
    decreases |steps|
  {
    steps != [] && ((steps[0].Enqueue? && s.shutdown) || EnqueuesAfterShutdown(Apply(s, steps[0]), steps[1..]))
  }

  /** A pool with workers is never without one before shutdown() has begun. */
  lemma {:induction false} TooLateIsAfterShutdown(s: Pool, steps: seq<Step>)
    requires Inv(s) && s.n > 0 && ValidRun(s, steps) && EnqueuesTooLate(s, steps)
    ensures EnqueuesAfterShutdown(s, steps)
    decreases |steps|
  {
    if AllExited(s) { assert 0 in Workers(s.n) && s.exited != {}; }
    StepInv(s, steps[0]);
    if EnqueuesTooLate(Apply(s, steps[0]), steps[1..]) { TooLateIsAfterShutdown(Apply(s, steps[0]), steps[1..]); }
  }

  /** A job enqueued when no worker is left is never started: its place in the enqueued sequence
      stays behind the started ones for ever. */
  lemma LateJobStranded(s: Pool, fn: Job, steps: seq<Step>)
    requires Inv(s) && AllExited(s) && Enabled(s, Enqueue(fn, None))
    requires ValidRun(Apply(s, Enqueue(fn, None)), steps)
    ensures var t, place := RunOf(Apply(s, Enqueue(fn, None)), steps), |s.enqueued|;
            place < |t.enqueued| && t.enqueued[place] == fn && |t.started| <= place
  {
    var next := Apply(s, Enqueue(fn, None));
    StepInv(s, Enqueue(fn, None));
    NothingStarts(next, steps);
    RunInv(next, steps);
    var t := RunOf(next, steps);
    assert t.enqueued == s.started + t.jobs && next.enqueued == s.started + next.jobs;
    assert t.jobs[|s.jobs|] == next.jobs[|s.jobs|] == fn;
  }

  /** A pool without workers never runs anything. */
  lemma NoWorkerStranded(steps: seq<Step>)
    requires ValidRun(Start(0), steps)
    ensures var s := RunOf(Start(0), steps); s.started == [] && s.jobs == s.enqueued
  {
    StartInv(0);
    RunInv(Start(0), steps);
    NothingStarts(Start(0), steps);
    assert [] + RunOf(Start(0), steps).jobs == RunOf(Start(0), steps).jobs;
  }

  /** A run in which a job comes too late. */
  lemma LateRun(fn: Job)
    ensures var steps := [SetShutdown, Section(0), NotifyAll, Join, Enqueue(fn, None)];
            && ValidRun(Start(1), steps) && EnqueuesTooLate(Start(1), steps)
            && RunOf(Start(1), steps).joined == 1
  {
    var s0 := Start(1);
    assert Workers(1) == {0};
    var s1 := Apply(s0, SetShutdown);
    var s2 := Apply(s1, Section(0));
    var s3 := Apply(s2, NotifyAll);
    var s4 := Apply(s3, Join);
    RunStep(s4, Enqueue(fn, None), []);
    RunStep(s3, Join, [Enqueue(fn, None)]);
    RunStep(s2, NotifyAll, [Join, Enqueue(fn, None)]);
    RunStep(s1, Section(0), [NotifyAll, Join, Enqueue(fn, None)]);
    RunStep(s0, SetShutdown, [Section(0), NotifyAll, Join, Enqueue(fn, None)]);
  }

  lemma RunStep(s: Pool, step: Step, rest: seq<Step>)
    requires Enabled(s, step) && ValidRun(Apply(s, step), rest)
    ensures ValidRun(s, [step] + rest) && RunOf(s, [step] + rest) == RunOf(Apply(s, step), rest)
    ensures EnqueuesTooLate(s, [step] + rest)
       <==> (step.Enqueue? && AllExited(s)) || EnqueuesTooLate(Apply(s, step), rest)
  {
    assert ([step] + rest)[1..] == rest;
  }

  /** Work left for the workers once all have been told to stop. */
  function Rank(s: Pool): nat { 3 * |s.jobs| + 2 * |s.running| + |s.ready| }

  lemma RankFalls(s: Pool, step: Step)
    requires Inv(s) && s.notified && Enabled(s, step) && (step.Section? || step.Finish?)
    ensures Rank(Apply(s, step)) < Rank(s)
  {
    if step.Finish? {
      assert (s.running - {step.w}).Keys == s.running.Keys - {step.w};
      assert |s.running - {step.w}| == |s.running| - 1;
    }
  }

  /** Once all workers have been told to stop, none sleeps, and until all have exited one of them
      can take a step; */
  lemma ShutdownProgress(s: Pool)
    requires Inv(s) && s.notified
    ensures s.waiting == {}
    ensures s.exited == Workers(s.n) || exists w :: Enabled(s, Section(w)) || Enabled(s, Finish(w))
  {
    if s.exited != Workers(s.n) {
      assert s.ready + s.running.Keys != {};
      var w :| w in s.ready + s.running.Keys;
      assert Enabled(s, Section(w)) || Enabled(s, Finish(w));
    }
  }

  /** and they cannot go on for ever: shutdown() returns after a bounded number of steps. */
  lemma {:induction false} ShutdownBounded(s: Pool, steps: seq<Step>)
    requires Inv(s) && s.notified && ValidRun(s, steps)
    requires forall step | step in steps :: !step.Enqueue?
    ensures |steps| <= Rank(s) + s.n - s.joined
    decreases |steps|
  {
    if steps != [] {
      var step := steps[0];
      StepInv(s, step);
      if step.Section? || step.Finish? { RankFalls(s, step); }
      ShutdownBounded(Apply(s, step), steps[1..]);
    }
  }

  /** The object itself: the two protected fields are code, where each thread stands is ghost.
      Every method is one atomic step of the machine. */
  class ThreadPoolObject {
    var jobs: seq<Job>
    var shutdown: bool
    ghost var rest: Pool

    ghost function Abs(): Pool
      reads this
    {
      rest.(jobs := jobs, shutdown := shutdown)
    }

    constructor (n: nat)
      ensures Abs() == Start(n) && Inv(Abs())
    {
      jobs, shutdown := [], false;
      rest := Start(n);
    }

    method EnqueueJob(fn: Job) returns (ghost wakes: Option<Worker>)
      requires Inv(Abs())
      modifies this
      ensures Enabled(old(Abs()), Enqueue(fn, wakes)) && Abs() == Apply(old(Abs()), Enqueue(fn, wakes))
      ensures Inv(Abs())
    {
      jobs := jobs + [fn];
      wakes := None;
      if rest.waiting != {} {
        ghost var w :| w in rest.waiting;
        wakes := Some(w);
      }
      rest := Apply(old(Abs()), Enqueue(fn, wakes));
      StepInv(old(Abs()), Enqueue(fn, wakes));
    }

    method RaiseShutdown()
      requires Inv(Abs()) && !shutdown
      modifies this
      ensures Abs() == Apply(old(Abs()), SetShutdown) && Inv(Abs())
    {
      shutdown := true;
      StepInv(old(Abs()), SetShutdown);
    }

    /** A worker's critical section: Some(fn) leaves it with a job, None either asleep or for good. */
    method TakeJob(w: Worker) returns (fn: Option<Job>)
      requires Inv(Abs()) && Enabled(Abs(), Section(w))
      modifies this
      ensures Abs() == Apply(old(Abs()), Section(w)) && Inv(Abs())
      ensures fn == if old(jobs) == [] then None else Some(old(jobs)[0])
      ensures fn.Some? ==> fn.value == old(Abs()).enqueued[|old(Abs()).started|]
    {
      StepInv(Abs(), Section(w));
      rest := Apply(Abs(), Section(w));
      if jobs == [] { return None; }
      fn := Some(jobs[0]);
      jobs := jobs[1..];
    }
  }

  lemma StepInv(s: Pool, step: Step)
    requires Inv(s) && Enabled(s, step)
    ensures Inv(Apply(s, step))
  {
    PartitionStep(s, step);
    HistoryStep(s, step);
    WakeupStep(s, step);
    ShutdownStep(s, step);
  }
}
