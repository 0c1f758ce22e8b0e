/** EventLoop's methods over its fields (haha_web/net/EventLoop.cpp). Each stretch under the lock and
    each system call is one step of the model in EventLoop.dfy; between two steps of a method the
    other threads, and the tasks being run, may take any steps of theirs. Whatever they do, every state
    passed through is recorded and keeps the invariant of the model. */
module EventLoopMethods {
  import opened Steps = EventLoop

  /** Steps that are not the loop's own progress: other threads, and calls that a running task makes. */
  predicate Foreign(step: Step) {
    step.Push? || step.Quit? || step.Write? || step.OwnPush? || step.OwnQuit?
  }

  /** What others do at each of the points where they may. */
  type Noise = nat -> seq<Step>

  class EventLoop {
    var quit: bool
    var counter: nat              // what the eventfd holds
    var armed: bool
    var calling: bool             // callingPendingTasks_
    var pending: seq<Task>        // pendingTasks_
    var owing: nat                // threads between a push, or setting quit_, and their write
    var pc: Pc
    var executed: seq<Task>       // every call of a queued task, as a trace
    var direct: seq<Task>         // every call made at once by runInLoop
    ghost var batch: seq<Task>
    ghost var queued: seq<Task>
    ghost var trace: seq<Loop>    // every state so far

    ghost function Value(): Loop
      reads this
    {
      Loop(pc, quit, counter, armed, calling, pending, batch, owing, queued, executed)
    }

    /** The object has come to its state by steps of the model, each of which kept the invariant. */
    ghost predicate Valid()
      reads this
    {
      Path(trace) && trace[0] == START && trace[|trace| - 1] == Value() && forall s <- trace :: Inv(s)
    }

    /** Everything that was recorded is still there. */
    twostate predicate Onward()
      reads this
    {
      old(trace) <= trace && old(executed) <= executed && old(queued) <= queued
    }

    constructor ()
      ensures Valid() && Value() == START && direct == []
    {
      quit, counter, armed, calling, pending, owing := false, 0, false, false, [], 0;
      pc, executed, direct, batch, queued := NotStarted, [], [], [], [];
      trace := [START];
    }

    /** The fields have just been changed by one step. */
    ghost method Record(step: Step)
      requires Path(trace) && trace[0] == START && forall s <- trace :: Inv(s)
      requires var last := trace[|trace| - 1]; Enabled(last, step) && Value() == Apply(last, step)
      modifies `trace
      ensures Valid() && trace == old(trace) + [Value()]
    {
      var last := trace[|trace| - 1];
      StepKeepsInv(last, step);
      hide Inv, Apply, Enabled;
      assert Follows(last, Value());
      trace := trace + [Value()];
    }

    // -------------------------------------------------------------- what others do meanwhile

    /** The others take their steps, but for the last `owed` writes still to be made. */
    method Interleave(steps: seq<Step>, owed: nat)
      requires Valid() && owing >= owed
      modifies `quit, `counter, `armed, `pending, `owing, `queued, `trace
      ensures Valid() && Onward() && owing >= owed && old(pending) <= pending && (old(quit) ==> quit)
    {
      for i := 0 to |steps|
        invariant Valid() && old(trace) <= trace && old(queued) <= queued && owing >= owed && old(pending) <= pending
        invariant old(quit) ==> quit
      {
        if Foreign(steps[i]) && (steps[i].Write? ==> owing > owed)
           && (steps[i].OwnPush? || steps[i].OwnQuit? ==> InLoopThread(pc)) {
          OneForeign(steps[i]);
        }
      }
    }

    method OneForeign(step: Step)
      requires Valid() && Foreign(step) && Enabled(Value(), step)
      modifies `quit, `counter, `armed, `pending, `owing, `queued, `trace
      ensures Valid() && trace == old(trace) + [Value()] && Value() == Apply(old(Value()), step)
      ensures old(pending) <= pending && old(queued) <= queued && (old(quit) ==> quit)
    {
      match step {
        case Push(t) =>
          pending, queued, owing := pending + [t], queued + [t], owing + 1;
        case Quit =>
          quit, owing := true, owing + 1;
        case Write =>
          counter, armed, owing := counter + 1, pc != NotStarted, owing - 1;
        case OwnPush(t) =>
          pending, queued := pending + [t], queued + [t];
          if calling {
            counter, armed := counter + 1, pc != NotStarted;
          }
        case OwnQuit =>
          quit := true;
      }
      Record(step);
    }

    // -------------------------------------------------------------- calls from any thread

    /** queueInLoop: push under the lock; then, in another thread or while tasks run, wake the loop. Others
        may get in between the push and the write. */
    method QueueInLoop(task: Task, inLoopThread: bool, noise: Noise)
      requires Valid() && (inLoopThread ==> InLoopThread(pc))
      modifies `quit, `counter, `armed, `pending, `owing, `queued, `trace
      ensures Valid() && Onward()
      ensures old(queued) + [task] <= queued && old(pending) + [task] <= pending
      ensures inLoopThread ==> pending == old(pending) + [task] && owing == old(owing) && quit == old(quit)
      ensures inLoopThread ==> counter == old(counter) + if calling then 1 else 0
      ensures !inLoopThread ==> counter > 0 && armed == (pc != NotStarted) && owing >= old(owing)
    {
      if inLoopThread {
        OneForeign(OwnPush(task));
      } else {
        var owed := owing;
        OneForeign(Push(task));
        Interleave(noise(0), owed + 1);
        OneForeign(Write);
      }
    }

    /** runInLoop: the loop's own thread calls at once, any other queues. */
    method RunInLoop(task: Task, inLoopThread: bool, noise: Noise)
      requires Valid() && (inLoopThread ==> InLoopThread(pc))
      modifies `quit, `counter, `armed, `pending, `owing, `queued, `trace, `direct
      ensures Valid() && Onward()
      ensures inLoopThread ==> direct == old(direct) + [task] && Value() == old(Value())
      ensures !inLoopThread ==> direct == old(direct) && old(queued) + [task] <= queued && counter > 0
    {
      if inLoopThread {
        direct := direct + [task];
      } else {
        QueueInLoop(task, false, noise);
      }
    }

    method Quit(inLoopThread: bool, noise: Noise)
      requires Valid() && (inLoopThread ==> InLoopThread(pc))
      modifies `quit, `counter, `armed, `pending, `owing, `queued, `trace
      ensures Valid() && Onward() && quit
      ensures inLoopThread ==> counter == old(counter) && pending == old(pending) && owing == old(owing)
      ensures !inLoopThread ==> counter > 0 && armed == (pc != NotStarted)
    {
      if inLoopThread {
        OneForeign(OwnQuit);
      } else {
        var owed := owing;
        OneForeign(Step.Quit);
        Interleave(noise(0), owed + 1);
        OneForeign(Write);
      }
    }

    // -------------------------------------------------------------- the loop's own calls

    method HandleWakeup()
      requires Valid() && pc == Handling(true)
      modifies `counter, `pc, `trace
      ensures Valid() && Onward() && pc == Handling(false) && counter == 0
    {
      counter := 0;
      pc := Handling(false);
      Record(Read);
    }

    /** doPendingTasks with others at work throughout: exactly what was pending at the swap is called, in
        order; what is pushed later, by others or by the tasks themselves, waits for the next turn. */
    method DoPendingTasks(noise: Noise) returns (tasks: seq<Task>)
      requires Valid() && pc == Handling(false)
      modifies `quit, `counter, `armed, `pending, `owing, `queued, `trace, `calling, `pc, `executed, `batch
      ensures Valid() && Onward() && pc == AtTop
      ensures old(pending) <= tasks && executed == old(executed) + tasks
      ensures executed + pending == queued
    {
      hide Valid, Apply;
      BeginTasks();
      Interleave(noise(0), 0);
      tasks := SwapOut();
      Interleave(noise(1), 0);
      RunBatch(tasks, noise);
      EndBatch();
    }

    method BeginTasks()
      requires Valid() && pc == Handling(false)
      modifies `calling, `pc, `trace
      ensures Valid() && Onward() && pc == Swapping && calling
    {
      calling := true;
      pc := Swapping;
      Record(EndEvents);
    }

    /** tasks.swap(pendingTasks_) under the lock. */
    method SwapOut() returns (tasks: seq<Task>)
      requires Valid() && pc == Swapping
      modifies `pending, `pc, `batch, `trace
      ensures Valid() && Onward() && pc == Running && tasks == batch == old(pending) && pending == []
    {
      tasks := pending;
      pending := [];
      pc, batch := Running, tasks;
      Record(Swap);
    }

    method RunBatch(tasks: seq<Task>, noise: Noise)
      requires Valid() && pc == Running && batch == tasks
      modifies `executed, `batch, `quit, `counter, `armed, `pending, `owing, `queued, `trace
      ensures Valid() && Onward() && batch == []
      ensures executed == old(executed) + tasks
    {
      hide Valid;
      for i := 0 to |tasks|
        invariant Valid() && batch == tasks[i..]
        invariant executed == old(executed) + tasks[..i] && old(trace) <= trace && old(queued) <= queued
      {
        RunOne(tasks[i]);
        assert tasks[..i] + [tasks[i]] == tasks[..i + 1];
        Interleave(noise(2 + i), 0);
      }
      assert tasks[..|tasks|] == tasks;
    }

    method RunOne(task: Task)
      requires Valid() && pc == Running && batch != [] && batch[0] == task
      modifies `executed, `batch, `trace
      ensures Valid() && Onward() && executed == old(executed) + [task] && batch == old(batch)[1..]
    {
      executed := executed + [task];
      batch := batch[1..];
      Record(RunTask);
    }

    method EndBatch()
      requires Valid() && pc == Running && batch == []
      modifies `calling, `pc, `trace
      ensures Valid() && Onward() && pc == AtTop
      ensures executed + pending == queued
    {
      calling := false;
      pc := AtTop;
      Record(EndTasks);
      BetweenBatches(Value());
    }

    /** One turn of loop() that has not found quit_ set: wait, handle, run what is pending. epoll_wait may
        report the wakeup when it is ready, or return for another channel. */
    method Turn(woken: bool, noise: nat -> Noise) returns (tasks: seq<Task>)
      requires Valid() && pc == Waiting
      modifies `quit, `counter, `armed, `pending, `owing, `queued, `trace, `calling, `pc, `executed, `batch
      ensures Valid() && Onward() && pc == AtTop && executed == old(executed) + tasks && old(pending) <= tasks
    {
      hide Valid, Apply;
      Interleave(noise(0)(0), 0);
      var wake := WaitReturns(woken);
      Interleave(noise(0)(1), 0);
      if wake {
        HandleWakeup();
      }
      Interleave(noise(0)(2), 0);
      tasks := DoPendingTasks(noise(1));
    }

    method WaitReturns(woken: bool) returns (wake: bool)
      requires Valid() && pc == Waiting
      modifies `armed, `pc, `trace
      ensures Valid() && Onward() && pc == Handling(wake)
    {
      wake := woken && armed && counter > 0;
      armed := armed && !wake;
      pc := Handling(wake);
      Record(Return(wake));
    }

    /** while(!quit_). */
    method TestQuit() returns (stop: bool)
      requires Valid() && pc == AtTop
      modifies `pc, `trace
      ensures Valid() && Onward() && stop == quit && pc == if stop then Stopped else Waiting
    {
      stop := quit;
      pc := if stop then Stopped else Waiting;
      Record(Top);
    }

    method Begin()
      requires Valid() && pc == NotStarted
      modifies `pc, `armed, `trace
      ensures Valid() && Onward() && pc == AtTop
    {
      pc, armed := AtTop, counter > 0;
      Record(Enter);
    }

    /** loop(), for any number of returns from epoll_wait: a run of the model, so whatever holds in every
        reachable state holds at every point of it. */
    method RunLoop(wakeups: seq<bool>, noise: nat -> nat -> Noise)
      requires Valid() && pc == NotStarted
      modifies `quit, `counter, `armed, `pending, `owing, `queued, `trace, `calling, `pc, `executed, `batch
      ensures Valid() && Onward() && (pc == AtTop || (pc == Stopped && quit))
      ensures forall s <- trace :: Reachable(s)
    {
      Begin();
      var k := 0;
      while k < |wakeups|
        invariant Valid() && pc == AtTop && k <= |wakeups|
        invariant old(trace) <= trace && old(executed) <= executed && old(queued) <= queued
      {
        hide Valid;
        var stop := TestQuit();
        if stop {
          break;
        }
        var tasks := Turn(wakeups[k], noise(k));
        k := k + 1;
      }
      TraceReachable(trace);
    }
  }

  lemma BetweenBatches(s: Loop)
    requires Inv(s)
    ensures s.pc != Running ==> s.batch == []
    ensures s.batch == [] ==> s.executed + s.pending == s.queued
  {
    assert s.batch == [] ==> s.executed + s.batch == s.executed;
  }

  lemma TraceReachable(trace: seq<Loop>)
    requires Path(trace) && trace[0] == START
    ensures forall s <- trace :: Reachable(s)
  {
    forall s <- trace
      ensures Reachable(s)
    {
      var i :| 0 <= i < |trace| && trace[i] == s;
      var states := trace[..i + 1];
      assert Path(states) && states[0] == START && states[|states| - 1] == s;
    }
  }
}
