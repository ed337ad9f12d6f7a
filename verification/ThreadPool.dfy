/**
 The thread pool as the object it is: one method for each atomic section of ThreadPool.cpp and
 ThreadPool.h, each proved to be its step of PoolProtocol, and the destructor run to its end against
 an arbitrary scheduler.
 */
module ThreadPools {
  import opened Bytes
  import opened PoolProtocol

  class ThreadPool {
    var workers: seq<Phase>
    var tasks: seq<Task>
    var stop: bool
    var notifyOnes: nat
    var notifyAll: bool
    ghost var accepted: seq<Task>
    ghost var started: seq<Task>
    ghost var finished: seq<Task>
    var submissions: nat

    ghost function State(): Pool
      reads this
    {
      Pool(workers, tasks, stop, notifyOnes, notifyAll, accepted, started, finished)
    }

    ghost predicate Valid()
      reads this
    {
      Inv(State()) && submissions == |accepted|
    }

    constructor (numThreads: nat)
      ensures Valid() && State() == Start(numThreads)
    {
      workers := seq(numThreads, _ => Checking);
      tasks, stop, notifyOnes, notifyAll := [], false, 0, false;
      accepted, started, finished, submissions := [], [], [], 0;
      new;
      StartInv(numThreads);
    }

    /** enqueue, up to its unlock: false where the source throws. */
    method EnqueueLocked() returns (ok: bool)
      requires Valid()
      modifies this
      ensures Valid() && ok == !old(stop)
      ensures var step := if old(stop) then Refused else Push;
        Enabled(old(State()), step) && State() == Apply(old(State()), step)
    {
      StepKeepsInv(State(), if stop then Refused else Push);
      if stop {
        return false;
      }
      tasks := tasks + [submissions];
      accepted := accepted + [submissions];
      submissions := submissions + 1;
      notifyOnes := notifyOnes + 1;
      return true;
    }

    /** enqueue's notify_one: some sleeper, whichever, if there is one. */
    method NotifyOneWaiter() returns (woken: Option<nat>)
      requires Valid() && notifyOnes > 0
      modifies this
      ensures Valid() && Enabled(old(State()), NotifyOne(woken))
      ensures State() == Apply(old(State()), NotifyOne(woken))
    {
      woken := None;
      if w :| 0 <= w < |workers| && workers[w] == Asleep {
        woken := Some(w);
      }
      StepKeepsInv(State(), NotifyOne(woken));
      notifyOnes := notifyOnes - 1;
      if woken.Some? {
        workers := workers[woken.value := Checking];
      }
    }

    /** The worker's critical section: wait's test of its predicate, the exit test, the dequeue. */
    method WorkerSection(w: nat)
      requires Valid() && Enabled(State(), Test(w))
      modifies this
      ensures Valid() && State() == Apply(old(State()), Test(w))
    {
      StepKeepsInv(State(), Test(w));
      if !(stop || tasks != []) {
        workers := workers[w := Asleep];
        return;
      }
      if stop && tasks == [] {
        workers := workers[w := Exited];
        return;
      }
      var task := tasks[0];
      tasks := tasks[1..];
      started := started + [task];
      workers := workers[w := Running(task)];
    }

    method TaskReturns(w: nat)
      requires Valid() && Enabled(State(), Finish(w))
      modifies this
      ensures Valid() && State() == Apply(old(State()), Finish(w))
    {
      StepKeepsInv(State(), Finish(w));
      finished := finished + [workers[w].task];
      workers := workers[w := Checking];
    }

    method WakesUp(w: nat)
      requires Valid() && Enabled(State(), WakeUp(w))
      modifies this
      ensures Valid() && State() == Apply(old(State()), WakeUp(w))
    {
      StepKeepsInv(State(), WakeUp(w));
      workers := workers[w := Checking];
    }

    /** The destructor's critical section. */
    method SetStop()
      requires Valid() && !stop
      modifies this
      ensures Valid() && State() == Apply(old(State()), Stop)
    {
      StepKeepsInv(State(), Stop);
      stop := true;
      notifyAll := true;
    }

    method NotifyAllWaiters()
      requires Valid() && notifyAll
      modifies this
      ensures Valid() && State() == Apply(old(State()), NotifyAll)
    {
      StepKeepsInv(State(), NotifyAll);
      notifyAll := false;
      workers := Woken(workers);
    }

    /**
     The destructor against any scheduler: whichever worker, notification or spurious wakeup comes
     next, the joins return. If the pool has a worker at all, every accepted task has run by then.
     */
    method Destroy()
      requires Valid() && !stop
      modifies this
      ensures Valid() && stop && Joined(State())
      ensures accepted == old(accepted)
      ensures old(workers) != [] ==> tasks == [] && started == accepted && multiset(finished) == multiset(accepted)
      ensures old(workers) == [] ==> tasks == old(tasks) && started == old(started) && finished == old(finished)
    {
      hide Inv, StopMeasure, Apply;
      SetStop();
      StopApplied(old(State()));
      while exists w :: 0 <= w < |workers| && workers[w] != Exited
        invariant Valid() && stop && accepted == old(accepted)
        invariant |workers| == old(|workers|)
        invariant workers == [] ==> tasks == old(tasks) && started == old(started) && finished == old(finished)
        decreases StopMeasure(State())
      {
        ghost var p := State();
        ghost var step;
        var w :| 0 <= w < |workers| && workers[w] != Exited;
        if
        case notifyAll =>
          step := NotifyAll;
          InternalApplied(p, step);
          NotifyAllWaiters();
        case notifyOnes > 0 =>
          var woken := NotifyOneWaiter();
          step := NotifyOne(woken);
          InternalApplied(p, step);
        case workers[w] == Checking =>
          step := Test(w);
          InternalApplied(p, step);
          WorkerSection(w);
        case workers[w].Running? =>
          step := Finish(w);
          InternalApplied(p, step);
          TaskReturns(w);
        case workers[w] == Asleep =>
          step := WakeUp(w);
          InternalApplied(p, step);
          WakesUp(w);
      }
      if workers != [] {
        JoinedDrained(State());
      }
    }
  }

  lemma StopApplied(p: Pool)
    requires Enabled(p, Stop)
    ensures Apply(p, Stop) == p.(stop := true, notifyAll := true)
  {
  }

  lemma InternalApplied(p: Pool, s: Step)
    requires Enabled(p, s) && Internal(s)
    ensures var q := Apply(p, s);
      q.stop == p.stop && q.accepted == p.accepted && |q.workers| == |p.workers|
    ensures p.stop ==> StopMeasure(Apply(p, s)) < StopMeasure(p)
  {
    if p.stop {
      StopMeasureDecreases(p, s);
    }
  }
}
