/**
 The protocol of the thread pool (src/ThreadPool.cpp, include/ThreadPool.h) as a state machine. A
 step is one critical section, one notification, or one task running to its end; any number of
 workers and of submitters interleave, and sleepers may wake for no reason.
 */
module PoolProtocol {
  import opened Bytes

  /** A task is the number of its submission: no two submissions are the same task. */
  type Task = nat

  datatype Phase =
    | Checking             // about to take the lock and test the predicate
    | Asleep               // inside condition.wait
    | Running(task: Task)  // outside the lock
    | Exited

  /** What is shared, the notifications under way, and the history of submissions. */
  datatype Pool = Pool(
    workers: seq<Phase>, queue: seq<Task>, stop: bool,
    notifyOnes: nat, notifyAll: bool,
    accepted: seq<Task>, started: seq<Task>, finished: seq<Task>)

  datatype Step =
    | Push                          // enqueue's critical section
    | Refused                       // the same, on a stopped pool: it throws
    | NotifyOne(woken: Option<nat>) // enqueue's notify_one
    | Test(worker: nat)             // the worker's critical section
    | Finish(worker: nat)           // task() returns
    | WakeUp(worker: nat)           // a spurious wakeup
    | Stop                          // the destructor's critical section
    | NotifyAll                     // the destructor's notify_all

  function Start(numThreads: nat): Pool {
    Pool(seq(numThreads, _ => Checking), [], false, 0, false, [], [], [])
  }

  predicate IsAt(p: Pool, w: nat, phase: Phase) {
    w < |p.workers| && p.workers[w] == phase
  }

  predicate SomeAsleep(p: Pool) {
    exists w :: 0 <= w < |p.workers| && p.workers[w] == Asleep
  }

  predicate Enabled(p: Pool, s: Step) {
    match s
    case Push => !p.stop
    case Refused => p.stop
    case NotifyOne(woken) =>
      p.notifyOnes > 0 && (if woken.Some? then IsAt(p, woken.value, Asleep) else !SomeAsleep(p))
    case Test(w) => IsAt(p, w, Checking)
    case Finish(w) => w < |p.workers| && p.workers[w].Running?
    case WakeUp(w) => IsAt(p, w, Asleep)
    case Stop => !p.stop
    case NotifyAll => p.notifyAll
  }

  function Woken(ws: seq<Phase>): (r: seq<Phase>)
    ensures |r| == |ws|
    ensures forall w :: 0 <= w < |ws| ==> r[w] == if ws[w] == Asleep then Checking else ws[w]
  {
    if ws == [] then [] else [if ws[0] == Asleep then Checking else ws[0]] + Woken(ws[1..])
  }

  function Apply(p: Pool, s: Step): Pool
    requires Enabled(p, s)
  {
    match s
    case Push =>
      var task := |p.accepted|;
      p.(queue := p.queue + [task], accepted := p.accepted + [task], notifyOnes := p.notifyOnes + 1)
    case Refused => p
    case NotifyOne(woken) =>
      p.(notifyOnes := p.notifyOnes - 1,
         workers := if woken.Some? then p.workers[woken.value := Checking] else p.workers)
    case Test(w) =>
      if p.stop || p.queue != [] then
        if p.stop && p.queue == [] then p.(workers := p.workers[w := Exited])
        else
          p.(workers := p.workers[w := Running(p.queue[0])], queue := p.queue[1..], started := p.started + [p.queue[0]])
      else p.(workers := p.workers[w := Asleep])
    case Finish(w) =>
      p.(workers := p.workers[w := Checking], finished := p.finished + [p.workers[w].task])
    case WakeUp(w) => p.(workers := p.workers[w := Checking])
    case Stop => p.(stop := true, notifyAll := true)
    case NotifyAll => p.(notifyAll := false, workers := Woken(p.workers))
  }

  ghost predicate Execution(p: Pool, steps: seq<Step>)
    decreases |steps|
  {
    steps == [] || (Enabled(p, steps[0]) && Execution(Apply(p, steps[0]), steps[1..]))
  }

  ghost function Outcome(p: Pool, steps: seq<Step>): Pool
    requires Execution(p, steps)
    decreases |steps|
  {
    if steps == [] then p else Outcome(Apply(p, steps[0]), steps[1..])
  }

  // ----- sums over the workers -----

  function Sum(ws: seq<Phase>, weight: Phase -> nat): nat {
    if ws == [] then 0 else weight(ws[0]) + Sum(ws[1..], weight)
  }

  lemma {:induction false} SumUpdate(ws: seq<Phase>, w: nat, phase: Phase, weight: Phase -> nat)
    requires w < |ws|
    ensures Sum(ws[w := phase], weight) == Sum(ws, weight) - weight(ws[w]) + weight(phase)
    decreases |ws|
  {
    if w == 0 {
      assert ws[0 := phase][1..] == ws[1..];
    } else {
      SumUpdate(ws[1..], w - 1, phase, weight);
      assert ws[w := phase][1..] == ws[1..][w - 1 := phase];
    }
  }

  function IsChecking(phase: Phase): nat {
    if phase == Checking then 1 else 0
  }

  /** The workers about to test the predicate. */
  function Checkers(ws: seq<Phase>): nat {
    Sum(ws, IsChecking)
  }

  function Holds(task: Task): Phase -> nat {
    phase => if phase == Running(task) then 1 else 0
  }

  /** How many workers are running this task. */
  function InHand(ws: seq<Phase>, task: Task): nat {
    Sum(ws, Holds(task))
  }

  lemma InHandUpdate(ws: seq<Phase>, w: nat, phase: Phase, task: Task)
    requires w < |ws|
    ensures InHand(ws[w := phase], task) ==
      InHand(ws, task) - (if ws[w] == Running(task) then 1 else 0) + (if phase == Running(task) then 1 else 0)
  {
    SumUpdate(ws, w, phase, Holds(task));
  }

  lemma {:induction false} InHandWoken(ws: seq<Phase>, task: Task)
    ensures InHand(Woken(ws), task) == InHand(ws, task)
  {
    if ws != [] {
      InHandWoken(ws[1..], task);
      assert Woken(ws)[1..] == Woken(ws[1..]);
    }
  }

  lemma {:induction false} NoneInHand(ws: seq<Phase>, task: Task)
    requires forall w :: 0 <= w < |ws| ==> !ws[w].Running?
    ensures InHand(ws, task) == 0
  {
    if ws != [] {
      NoneInHand(ws[1..], task);
    }
  }

  lemma {:induction false} NoCheckers(ws: seq<Phase>)
    ensures Checkers(ws) == 0 <==> forall w :: 0 <= w < |ws| ==> ws[w] != Checking
  {
    if ws != [] {
      NoCheckers(ws[1..]);
      if forall w :: 0 <= w < |ws| ==> ws[w] != Checking {
        forall w | 0 <= w < |ws[1..]| ensures ws[1..][w] != Checking {
          assert ws[w + 1] != Checking;
        }
      } else {
        var w :| 0 <= w < |ws| && ws[w] == Checking;
        assert w == 0 || ws[1..][w - 1] == Checking;
      }
    }
  }

  // ----- the invariant -----

  /** While a worker sleeps, every queued task has a notification or a worker on its way to it. */
  predicate NoLostWakeup(p: Pool) {
    SomeAsleep(p) ==> |p.queue| <= p.notifyOnes + Checkers(p.workers)
  }

  /** Once stopped, workers sleep only until the pending notify_all. */
  predicate StopWakesAll(p: Pool) {
    && (p.notifyAll ==> p.stop)
    && (p.stop && SomeAsleep(p) ==> p.notifyAll)
  }

  /** The started tasks followed by the queue are the accepted tasks, each of which is one submission. */
  predicate Fifo(p: Pool) {
    && p.started + p.queue == p.accepted
    && forall i :: 0 <= i < |p.accepted| ==> p.accepted[i] == i
  }

  predicate ExitsDrained(p: Pool) {
    (exists w :: 0 <= w < |p.workers| && p.workers[w] == Exited) ==> p.stop && p.queue == []
  }

  /** A started task is in the hands of one worker or has finished. */
  ghost predicate StartedAccounted(p: Pool) {
    forall task :: multiset(p.finished)[task] + InHand(p.workers, task) == multiset(p.started)[task]
  }

  ghost predicate Inv(p: Pool) {
    NoLostWakeup(p) && StopWakesAll(p) && Fifo(p) && ExitsDrained(p) && StartedAccounted(p)
  }

  lemma StepKeepsWakeups(p: Pool, s: Step)
    requires Enabled(p, s) && Inv(p)
    ensures NoLostWakeup(Apply(p, s)) && StopWakesAll(Apply(p, s))
  {
    hide Fifo, StartedAccounted, Sum;
    match s
    case Test(w) =>
      SumUpdate(p.workers, w, Apply(p, s).workers[w], IsChecking);
    case NotifyOne(woken) =>
      if woken.Some? { SumUpdate(p.workers, woken.value, Checking, IsChecking); }
    case Finish(w) => SumUpdate(p.workers, w, Checking, IsChecking);
    case WakeUp(w) => SumUpdate(p.workers, w, Checking, IsChecking);
    case _ =>
  }

  lemma StepKeepsOrder(p: Pool, s: Step)
    requires Enabled(p, s) && Inv(p)
    ensures Fifo(Apply(p, s)) && ExitsDrained(Apply(p, s))
  {
    hide NoLostWakeup, StopWakesAll, StartedAccounted, SomeAsleep;
    match s
    case Test(w) =>
      if p.queue != [] {
        assert p.started + p.queue == (p.started + [p.queue[0]]) + p.queue[1..];
      }
    case Push => assert p.started + (p.queue + [|p.accepted|]) == (p.started + p.queue) + [|p.accepted|];
    case _ =>
  }

  lemma StepKeepsCount(p: Pool, s: Step)
    requires Enabled(p, s) && Inv(p)
    ensures StartedAccounted(Apply(p, s))
  {
    forall task
      ensures multiset(Apply(p, s).finished)[task] + InHand(Apply(p, s).workers, task)
           == multiset(Apply(p, s).started)[task]
    {
      StepKeepsTask(p, s, task);
    }
  }

  lemma StepKeepsTask(p: Pool, s: Step, task: Task)
    requires Enabled(p, s)
    requires multiset(p.finished)[task] + InHand(p.workers, task) == multiset(p.started)[task]
    ensures multiset(Apply(p, s).finished)[task] + InHand(Apply(p, s).workers, task)
         == multiset(Apply(p, s).started)[task]
  {
    hide InHand, SomeAsleep;
    match s
    case Test(w) =>
      InHandUpdate(p.workers, w, Apply(p, s).workers[w], task);
      if p.queue != [] { AppendCount(p.started, p.queue[0], task); }
    case NotifyOne(woken) =>
      if woken.Some? { InHandUpdate(p.workers, woken.value, Checking, task); }
    case Finish(w) =>
      InHandUpdate(p.workers, w, Checking, task);
      AppendCount(p.finished, p.workers[w].task, task);
    case WakeUp(w) => InHandUpdate(p.workers, w, Checking, task);
    case NotifyAll => InHandWoken(p.workers, task);
    case _ =>
  }

  lemma AppendCount(s: seq<Task>, x: Task, task: Task)
    ensures multiset(s + [x])[task] == multiset(s)[task] + if x == task then 1 else 0
  {
  }

  lemma StepKeepsInv(p: Pool, s: Step)
    requires Enabled(p, s) && Inv(p)
    ensures Inv(Apply(p, s))
  {
    hide Apply, Enabled, NoLostWakeup, StopWakesAll, Fifo, ExitsDrained, StartedAccounted;
    StepKeepsWakeups(p, s);
    StepKeepsOrder(p, s);
    StepKeepsCount(p, s);
  }

  lemma StartInv(numThreads: nat)
    ensures Inv(Start(numThreads))
  {
    forall task ensures InHand(Start(numThreads).workers, task) == 0 {
      NoneInHand(Start(numThreads).workers, task);
    }
  }

  lemma {:induction false} ExecutionKeepsInv(p: Pool, steps: seq<Step>)
    requires Inv(p) && Execution(p, steps)
    ensures Inv(Outcome(p, steps))
    decreases |steps|
  {
    hide Inv, Apply, Enabled;
    if steps != [] {
      StepKeepsInv(p, steps[0]);
      ExecutionKeepsInv(Apply(p, steps[0]), steps[1..]);
    }
  }

  /** In every reachable state, for any number of workers: no lost wakeup, FIFO, exactly once, drained exits. */
  lemma ReachableInv(numThreads: nat, steps: seq<Step>)
    requires Execution(Start(numThreads), steps)
    ensures var p := Outcome(Start(numThreads), steps);
            && (SomeAsleep(p) ==> |p.queue| <= p.notifyOnes + Checkers(p.workers))
            && (p.stop && SomeAsleep(p) ==> p.notifyAll)
            && p.started + p.queue == p.accepted
            && (forall i, j :: 0 <= i < j < |p.started| ==> p.started[i] != p.started[j])
            && ((exists w :: 0 <= w < |p.workers| && p.workers[w] == Exited) ==> p.stop && p.queue == [])
            && (forall task :: multiset(p.finished)[task] + InHand(p.workers, task) == multiset(p.started)[task])
  {
    StartInv(numThreads);
    ExecutionKeepsInv(Start(numThreads), steps);
    var p := Outcome(Start(numThreads), steps);
    forall i | 0 <= i < |p.started| ensures p.started[i] == i {
      assert p.started[i] == (p.started + p.queue)[i] == p.accepted[i];
    }
  }

  // ----- submissions -----

  /** How many submissions the steps contain. */
  function Submitted(steps: seq<Step>): nat {
    if steps == [] then 0 else (if steps[0] == Push then 1 else 0) + Submitted(steps[1..])
  }

  /** Every submission is one accepted task, none is ever forgotten, and no worker comes or goes. */
  lemma {:induction false} SubmissionsAccepted(p: Pool, steps: seq<Step>)
    requires Execution(p, steps)
    ensures |Outcome(p, steps).accepted| == |p.accepted| + Submitted(steps)
    ensures p.accepted <= Outcome(p, steps).accepted
    ensures |Outcome(p, steps).workers| == |p.workers|
    decreases |steps|
  {
    if steps != [] {
      SubmissionsAccepted(Apply(p, steps[0]), steps[1..]);
    }
  }

  /** Submissions are refused exactly after the stop: never before it, and always from it on. */
  lemma {:induction false} RefusedAfterStop(p: Pool, steps: seq<Step>, j: nat)
    requires Execution(p, steps) && j < |steps|
    ensures steps[j] == Refused ==> p.stop || Stop in steps[..j]
    ensures steps[j] == Push ==> !p.stop && Stop !in steps[..j]
    decreases |steps|
  {
    if j > 0 {
      RefusedAfterStop(Apply(p, steps[0]), steps[1..], j - 1);
      assert steps[..j] == [steps[0]] + steps[1..][..j - 1];
    }
  }

  /** A submission, accepted or refused, is possible in every state. */
  lemma AlwaysSubmittable(p: Pool)
    ensures Enabled(p, if p.stop then Refused else Push)
  {
  }

  /** Work conservation: with a task queued, some worker is on it or on its way, or a wakeup is pending. */
  lemma QueuedWorkMoves(p: Pool)
    requires Inv(p) && p.queue != [] && p.workers != []
    ensures exists s :: Enabled(p, s) && (s.Test? || s.Finish? || s.NotifyOne?)
  {
    match p.workers[0]
    case Checking => assert Enabled(p, Test(0));
    case Running(_) => assert Enabled(p, Finish(0));
    case Exited => assert false;
    case Asleep =>
      if Checkers(p.workers) == 0 {
        assert Enabled(p, NotifyOne(Some(0)));
      } else {
        NoCheckers(p.workers);
        var w :| 0 <= w < |p.workers| && p.workers[w] == Checking;
        assert Enabled(p, Test(w));
      }
  }

  // ----- shutdown -----

  /** The steps of workers and notifications, as against those of submitters and of the destructor's start. */
  predicate Internal(s: Step) {
    !s.Push? && !s.Refused? && !s.Stop?
  }

  function StopRank(phase: Phase): nat {
    match phase
    case Checking => 1
    case Asleep => 2
    case Running(_) => 2
    case Exited => 0
  }

  function StopMeasure(p: Pool): nat {
    2 * |p.queue| + Sum(p.workers, StopRank) + p.notifyOnes + if p.notifyAll then 1 else 0
  }

  lemma {:induction false} WokenSum(ws: seq<Phase>)
    ensures Sum(Woken(ws), StopRank) <= Sum(ws, StopRank)
  {
    if ws != [] {
      WokenSum(ws[1..]);
      assert Woken(ws)[1..] == Woken(ws[1..]);
    }
  }

  /** After stop, every worker step, notification and spurious wakeup brings the end nearer. */
  lemma StopMeasureDecreases(p: Pool, s: Step)
    requires Enabled(p, s) && p.stop && Internal(s)
    ensures StopMeasure(Apply(p, s)) < StopMeasure(p)
    ensures Apply(p, s).stop
  {
    hide Sum;
    match s
    case Test(w) => SumUpdate(p.workers, w, Apply(p, s).workers[w], StopRank);
    case NotifyOne(woken) =>
      if woken.Some? { SumUpdate(p.workers, woken.value, Checking, StopRank); }
    case Finish(w) => SumUpdate(p.workers, w, Checking, StopRank);
    case WakeUp(w) => SumUpdate(p.workers, w, Checking, StopRank);
    case NotifyAll => WokenSum(p.workers);
  }

  /** And while a worker has not exited, some step other than a spurious wakeup can be taken. */
  lemma ShutdownNeverStuck(p: Pool, w: nat)
    requires Inv(p) && p.stop && w < |p.workers| && p.workers[w] != Exited
    ensures exists s :: Enabled(p, s) && Internal(s) && !s.WakeUp?
  {
    match p.workers[w]
    case Checking => assert Enabled(p, Test(w));
    case Running(_) => assert Enabled(p, Finish(w));
    case Asleep => assert Enabled(p, NotifyAll);
  }

  predicate Joined(p: Pool) {
    forall w :: 0 <= w < |p.workers| ==> p.workers[w] == Exited
  }

  /** When the joins return, every accepted task has been started in order and has run to its end. */
  lemma JoinedDrained(p: Pool)
    requires Inv(p) && Joined(p) && p.workers != []
    ensures p.queue == [] && p.started == p.accepted
    ensures multiset(p.finished) == multiset(p.accepted)
  {
    assert p.workers[0] == Exited;
    assert p.started + [] == p.started;
    forall task ensures multiset(p.finished)[task] == multiset(p.accepted)[task] {
      NoneInHand(p.workers, task);
    }
  }

  /** From start to join: as many tasks have finished as were submitted, none twice. */
  lemma AllSubmittedFinish(numThreads: nat, steps: seq<Step>)
    requires numThreads > 0 && Execution(Start(numThreads), steps) && Joined(Outcome(Start(numThreads), steps))
    ensures var q := Outcome(Start(numThreads), steps);
            |q.finished| == Submitted(steps) && multiset(q.finished) == multiset(q.accepted)
  {
    hide Inv, Joined;
    StartInv(numThreads);
    ExecutionKeepsInv(Start(numThreads), steps);
    SubmissionsAccepted(Start(numThreads), steps);
    var q := Outcome(Start(numThreads), steps);
    JoinedDrained(q);
    assert |q.finished| == |multiset(q.finished)| == |multiset(q.accepted)| == |q.accepted|;
  }

  /**
   Shutdown terminates: from any reachable stopped pool, no execution of internal steps is longer than
   the measure, and one that cannot go on has let every worker exit and every accepted task finish.
   */
  lemma {:induction false} ShutdownTerminates(p: Pool, steps: seq<Step>)
    requires Inv(p) && p.stop && p.workers != []
    requires Execution(p, steps) && forall s <- steps :: Internal(s)
    ensures |steps| <= StopMeasure(p)
    ensures var q := Outcome(p, steps);
            (forall s :: Enabled(q, s) ==> !Internal(s) || s.WakeUp?) ==>
              Joined(q) && q.queue == [] && multiset(q.finished) == multiset(q.accepted)
    decreases |steps|
  {
    hide Inv, Apply, Enabled, StopMeasure, Internal, Joined;
    if steps != [] {
      assert Internal(steps[0]);
      StepKeepsInv(p, steps[0]);
      StopMeasureDecreases(p, steps[0]);
      WorkersStay(p, steps[0]);
      ShutdownTerminates(Apply(p, steps[0]), steps[1..]);
    } else {
      StuckIsJoined(p);
    }
  }

  lemma WorkersStay(p: Pool, s: Step)
    requires Enabled(p, s)
    ensures |Apply(p, s).workers| == |p.workers|
  {
  }

  lemma StuckIsJoined(p: Pool)
    requires Inv(p) && p.stop && p.workers != []
    ensures (forall s :: Enabled(p, s) ==> !Internal(s) || s.WakeUp?) ==>
      Joined(p) && p.queue == [] && multiset(p.finished) == multiset(p.accepted)
  {
    hide Inv, Enabled, Internal;
    if Joined(p) {
      JoinedDrained(p);
    } else {
      var w :| 0 <= w < |p.workers| && p.workers[w] != Exited;
      ShutdownNeverStuck(p, w);
    }
  }

  /** A pool without workers drains nothing in any execution, and its joins return at any time. */
  lemma {:induction false} NoWorkersNoDrain(p: Pool, steps: seq<Step>)
    requires p.workers == [] && Execution(p, steps)
    ensures var q := Outcome(p, steps);
            p.queue <= q.queue && q.started == p.started && q.finished == p.finished && Joined(q)
    decreases |steps|
  {
    if steps != [] {
      NoWorkersNoDrain(Apply(p, steps[0]), steps[1..]);
    }
  }

  // ----- without shutdown -----

  function QuietRank(phase: Phase): nat {
    match phase
    case Checking => 1
    case Asleep => 0
    case Running(_) => 2
    case Exited => 0
  }

  function QuietMeasure(p: Pool): nat {
    2 * |p.queue| + Sum(p.workers, QuietRank) + 2 * p.notifyOnes
  }

  lemma QuietMeasureDecreases(p: Pool, s: Step)
    requires Enabled(p, s) && !p.stop && !p.notifyAll && Internal(s) && !s.WakeUp?
    ensures QuietMeasure(Apply(p, s)) < QuietMeasure(p)
  {
    hide Sum;
    match s
    case Test(w) => SumUpdate(p.workers, w, Apply(p, s).workers[w], QuietRank);
    case NotifyOne(woken) =>
      if woken.Some? { SumUpdate(p.workers, woken.value, Checking, QuietRank); }
    case Finish(w) => SumUpdate(p.workers, w, Checking, QuietRank);
  }

  /**
   A running pool also works off its queue: once submissions pause, and but for spurious wakeups, its
   workers take a bounded number of steps, and when none is left every accepted task has finished.
   */
  lemma {:induction false} QuietPoolDrains(p: Pool, steps: seq<Step>)
    requires Inv(p) && !p.stop && p.workers != []
    requires Execution(p, steps) && forall s <- steps :: Internal(s) && !s.WakeUp?
    ensures |steps| <= QuietMeasure(p)
    ensures var q := Outcome(p, steps);
            (forall s :: Enabled(q, s) ==> !Internal(s) || s.WakeUp?) ==>
              q.queue == [] && multiset(q.finished) == multiset(q.accepted)
    decreases |steps|
  {
    hide Inv, Apply, Enabled, QuietMeasure, Internal;
    NoStopNoNotifyAll(p);
    if steps != [] {
      assert Internal(steps[0]) && !steps[0].WakeUp?;
      StepKeepsInv(p, steps[0]);
      QuietMeasureDecreases(p, steps[0]);
      WorkersStay(p, steps[0]);
      InternalKeepsRunning(p, steps[0]);
      QuietPoolDrains(Apply(p, steps[0]), steps[1..]);
    } else {
      StuckIsIdle(p);
    }
  }

  lemma NoStopNoNotifyAll(p: Pool)
    requires Inv(p) && !p.stop
    ensures !p.notifyAll
  {
  }

  lemma InternalKeepsRunning(p: Pool, s: Step)
    requires Enabled(p, s) && Internal(s)
    ensures Apply(p, s).stop == p.stop
  {
  }

  lemma StuckIsIdle(p: Pool)
    requires Inv(p) && p.workers != []
    ensures (forall s :: Enabled(p, s) ==> !Internal(s) || s.WakeUp?) ==>
      p.queue == [] && multiset(p.finished) == multiset(p.accepted)
  {
    if forall s :: Enabled(p, s) ==> !Internal(s) || s.WakeUp? {
      if p.queue != [] {
        QueuedWorkMoves(p);
      }
      forall w | 0 <= w < |p.workers| ensures !p.workers[w].Running? {
        assert Enabled(p, Finish(w)) <==> p.workers[w].Running?;
      }
      assert p.started + [] == p.started;
      forall task ensures multiset(p.finished)[task] == multiset(p.accepted)[task] {
        NoneInHand(p.workers, task);
      }
    }
  }
}
