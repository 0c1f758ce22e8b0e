/** The hand-off of tasks to an event loop from other threads (haha_web/net/EventLoop.cpp): a queue
    under a lock and an eventfd that wakes the loop. Each step is one stretch that the code runs
    under the lock or with a single system call; threads interleave between steps. The eventfd is
    watched edge-triggered: a write makes it ready, a wait that reports it takes the edge, and a
    read clears the counter. */
module EventLoop {

  type Task = nat

  datatype Pc =
    | NotStarted            // before loop()
    | AtTop                 // about to test quit_
    | Waiting               // in epoll_wait
    | Handling(wake: bool)  // calling the channels; wake: the wakeup channel is still to be called
    | Swapping              // callingPendingTasks_ set, the swap still to come
    | Running               // calling what is in the batch
    | Stopped

  datatype Loop = Loop(
    pc: Pc,
    quit: bool,
    counter: nat,           // the eventfd's value
    armed: bool,            // an edge not yet reported by epoll_wait
    calling: bool,          // callingPendingTasks_
    pending: seq<Task>,     // pendingTasks_
    batch: seq<Task>,       // what is left of the swapped tasks
    owing: nat,             // other threads between pushing a task, or setting quit_, and their write
    queued: seq<Task>,      // every task pushed so far
    executed: seq<Task>)    // every task called so far

  const START := Loop(NotStarted, false, 0, false, false, [], [], 0, [], [])

  datatype Step =
    | Push(task: Task)      // queueInLoop in another thread, the locked part
    | Quit                  // quit() in another thread, before its wakeup
    | Write                 // wakeup() by a thread that owes one
    | OwnPush(task: Task)   // queueInLoop in the loop's own thread
    | OwnQuit
    | Enter                 // loop(): the wakeup channel is added
    | Top                   // while(!quit_)
    | Return(wake: bool)    // epoll_wait returns, perhaps with the wakeup event
    | Read                  // handleWakeup
    | EndEvents             // doPendingTasks begins
    | Swap
    | RunTask
    | EndTasks

  predicate InLoopThread(pc: Pc) { pc.Handling? || pc == Running }

  predicate Enabled(s: Loop, step: Step) {
    match step
    case Push(_) => true
    case Quit => true
    case Write => s.owing > 0
    case OwnPush(_) => InLoopThread(s.pc)
    case OwnQuit => InLoopThread(s.pc)
    case Enter => s.pc == NotStarted
    case Top => s.pc == AtTop
    case Return(wake) => s.pc == Waiting && (wake ==> s.armed && s.counter > 0)
    case Read => s.pc == Handling(true)
    case EndEvents => s.pc == Handling(false)
    case Swap => s.pc == Swapping
    case RunTask => s.pc == Running && s.batch != []
    case EndTasks => s.pc == Running && s.batch == []
  }

  /** write(wakeupFd_): an edge only once the channel is added. */
  function Wakeup(s: Loop): Loop {
    s.(counter := s.counter + 1, armed := s.pc != NotStarted)
  }

  function Apply(s: Loop, step: Step): Loop
    requires Enabled(s, step)
  {
    match step
    case Push(t) => s.(pending := s.pending + [t], queued := s.queued + [t], owing := s.owing + 1)
    case Quit => s.(quit := true, owing := s.owing + 1)
    case Write => Wakeup(s).(owing := s.owing - 1)
    case OwnPush(t) =>
      var s' := s.(pending := s.pending + [t], queued := s.queued + [t]);
      if s.calling then Wakeup(s') else s'
    case OwnQuit => s.(quit := true)
    case Enter => s.(pc := AtTop, armed := s.counter > 0)
    case Top => s.(pc := if s.quit then Stopped else Waiting)
    case Return(wake) => s.(pc := Handling(wake), armed := s.armed && !wake)
    case Read => s.(pc := Handling(false), counter := 0)
    case EndEvents => s.(pc := Swapping, calling := true)
    case Swap => s.(pc := Running, batch := s.pending, pending := [])
    case RunTask => s.(batch := s.batch[1..], executed := s.executed + [s.batch[0]])
    case EndTasks => s.(pc := AtTop, calling := false)
  }

  /** The eventfd is readable, with its edge still to be reported. */
  predicate Readable(s: Loop) { s.armed && s.counter > 0 }

  /** Past the swap, or before the loop, whatever is pending has been announced or soon will be. */
  predicate Announced(s: Loop) {
    s.counter > 0 || s.owing > 0
  }

  predicate Inv(s: Loop) {
    && s.executed + s.batch + s.pending == s.queued
    && (s.batch != [] ==> s.pc == Running)
    && (s.calling <==> s.pc == Swapping || s.pc == Running)
    && (s.counter > 0 && s.pc != NotStarted && s.pc != Handling(true) ==> s.armed)
    && (s.pending != [] && s.pc in {NotStarted, AtTop, Waiting, Running} ==> Announced(s))
    && (s.quit && s.pc in {NotStarted, Waiting} ==> Announced(s))
  }

  lemma StepKeepsInv(s: Loop, step: Step)
    requires Inv(s) && Enabled(s, step)
    ensures Inv(Apply(s, step))
  {
    match step
    case Push(t) => assert s.executed + s.batch + (s.pending + [t]) == s.executed + s.batch + s.pending + [t];
    case OwnPush(t) => assert s.executed + s.batch + (s.pending + [t]) == s.executed + s.batch + s.pending + [t];
    case Swap => assert s.executed + s.pending + [] == s.executed + [] + s.pending;
    case RunTask =>
      assert s.batch == [s.batch[0]] + s.batch[1..];
      assert s.executed + [s.batch[0]] + s.batch[1..] == s.executed + s.batch;
    case _ =>
  }

  ghost predicate Follows(s: Loop, s': Loop) {
    exists step :: Enabled(s, step) && s' == Apply(s, step)
  }

  /** Consecutive states, each by some step of some thread. */
  ghost predicate Path(states: seq<Loop>) {
    states != [] && forall i :: 0 < i < |states| ==> Follows(states[i - 1], states[i])
  }

  lemma {:induction false} PathKeepsInv(states: seq<Loop>, i: nat)
    requires Path(states) && i < |states| && Inv(states[0])
    ensures Inv(states[i])
  {
    if i > 0 {
      PathKeepsInv(states, i - 1);
      assert Follows(states[i - 1], states[i]);
      var step :| Enabled(states[i - 1], step) && states[i] == Apply(states[i - 1], step);
      StepKeepsInv(states[i - 1], step);
    }
  }

  ghost predicate Reachable(s: Loop) {
    exists states :: Path(states) && states[0] == START && states[|states| - 1] == s
  }

  lemma ReachableInv(s: Loop)
    requires Reachable(s)
    ensures Inv(s)
  {
    var states :| Path(states) && states[0] == START && states[|states| - 1] == s;
    PathKeepsInv(states, |states| - 1);
  }

  /** No lost wakeup: a loop that waits while tasks are pending, or quit_ is set, has its eventfd
      readable, or a thread that is about to write to it. */
  lemma NoLostWakeup(s: Loop)
    requires Reachable(s) && s.pc == Waiting && (s.pending != [] || s.quit)
    ensures Readable(s) || s.owing > 0
  {
    ReachableInv(s);
  }

  /** Tasks run in the order they were queued, none twice, none skipped. */
  lemma HandoffOrder(s: Loop)
    requires Reachable(s)
    ensures s.executed + s.batch + s.pending == s.queued
    ensures s.executed <= s.queued
    ensures (forall i, j :: 0 <= i < j < |s.queued| ==> s.queued[i] != s.queued[j]) ==>
      forall i, j :: 0 <= i < j < |s.executed| ==> s.executed[i] != s.executed[j]
  {
    ReachableInv(s);
    assert s.executed + s.batch + s.pending == s.executed + (s.batch + s.pending);
    assert forall i :: 0 <= i < |s.executed| ==> s.executed[i] == s.queued[i];
  }

  /** The loop's own steps. */
  predicate Own(step: Step) {
    || step.Enter? || step.Top? || step.Return? || step.Read?
    || step.EndEvents? || step.Swap? || step.RunTask? || step.EndTasks?
  }

  ghost predicate OwnFollows(s: Loop, s': Loop) {
    exists step :: Own(step) && Enabled(s, step) && s' == Apply(s, step)
  }

  /** A run of the loop alone. */
  ghost predicate OwnPath(states: seq<Loop>) {
    states != [] && forall i :: 0 < i < |states| ==> OwnFollows(states[i - 1], states[i])
  }

  /** Nothing is left to run. */
  predicate Finished(s: Loop) { s.batch == [] && s.pending == [] }

  /** How many own steps it takes at most until nothing is left. */
  function StepsLeft(s: Loop): nat {
    match s.pc
    case Waiting => 4 + |s.pending|
    case Handling(wake) => (if wake then 3 else 2) + |s.pending|
    case Swapping => 1 + |s.pending|
    case _ => |s.batch|
  }

  /** On the way from a wait to the end of the batch. */
  predicate OnTheWay(s: Loop) {
    Inv(s) && s.owing == 0
    && (Finished(s) || s.pc == Waiting || s.pc.Handling? || s.pc == Swapping || (s.pc == Running && s.pending == []))
  }

  lemma OwnStepCounts(s: Loop, step: Step)
    requires OnTheWay(s) && Own(step) && Enabled(s, step)
    ensures var s' := Apply(s, step);
      OnTheWay(s') && s'.queued == s.queued && (Finished(s) ==> Finished(s'))
      && (!Finished(s') ==> StepsLeft(s') < StepsLeft(s))
  {
    StepKeepsInv(s, step);
  }

  lemma NeverBlocked(s: Loop)
    requires OnTheWay(s) && !Finished(s)
    ensures exists step :: Own(step) && Enabled(s, step)
  {
    var step := match s.pc
      case Waiting => Return(true)
      case Handling(wake) => if wake then Read else EndEvents
      case Swapping => Swap
      case _ => RunTask;
    assert Own(step) && Enabled(s, step);
  }

  lemma {:induction false} OwnPathCounts(states: seq<Loop>, i: nat)
    requires OwnPath(states) && i < |states| && OnTheWay(states[0])
    ensures OnTheWay(states[i]) && states[i].queued == states[0].queued
    ensures Finished(states[i]) || StepsLeft(states[i]) + i <= StepsLeft(states[0])
  {
    if i > 0 {
      OwnPathCounts(states, i - 1);
      assert OwnFollows(states[i - 1], states[i]);
      var step :| Own(step) && Enabled(states[i - 1], step) && states[i] == Apply(states[i - 1], step);
      OwnStepCounts(states[i - 1], step);
    }
  }

  /** Left to itself from a wait, once no write is owed, the loop cannot do otherwise than run every queued
      task: in every run of its own steps it is never blocked before, and all are executed after at most
      four steps and one a task. */
  lemma WokenLoopRunsEverything(states: seq<Loop>, i: nat)
    requires OwnPath(states) && i < |states|
    requires Reachable(states[0]) && states[0].pc == Waiting && states[0].owing == 0
    ensures i >= 4 + |states[0].pending| ==> states[i].executed == states[i].queued == states[0].queued
    ensures !Finished(states[i]) ==> exists step :: Own(step) && Enabled(states[i], step)
  {
    var s := states[i];
    ReachableInv(states[0]);
    OwnPathCounts(states, i);
    if !Finished(s) {
      NeverBlocked(s);
    }
    assert Finished(s) ==> s.executed + s.batch + s.pending == s.executed;
    assert !Finished(s) && StepsLeft(s) == 0 ==> s.pc == Running && s.batch == [];
  }
}
