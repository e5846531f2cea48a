/**
 The queue of database tasks, as the atomic steps between which its threads interleave: any number of
 producers, one worker, and one thread that flushes or shuts down.
 */
module DbTasks {

  type Task = nat

  datatype ThreadState = Running | Closing | Terminated

  /** Where the worker is in threadMain. */
  datatype Worker =
    | Test                  // about to test the thread state
    | Lock                  // about to take the lock
    | Waiting               // on the condition variable
    | Woken                 // about to take the lock again after waiting
    | Busy(task: Task)      // running a task without the lock
    | Done

  /** Where the thread is that calls flush and shutdown. */
  datatype Controller =
    | Idle
    | Flushing(last: bool)  // about to look at the queue under the lock
    | Flusher(task: Task, last: bool)
    | Notifying             // at the end of shutdown
    | Finished

  datatype State = State(
    state: ThreadState, tasks: seq<Task>, worker: Worker, controller: Controller,
    owed: nat,              // producers that have left the lock and still have to notify
    accepted: seq<Task>, taken: seq<Task>, executed: multiset<Task>)

  datatype Step =
    | Add(task: Task) | Notify
    | WorkerTest | WorkerLock | WorkerRelock | WorkerRun | SpuriousWakeup
    | Flush | Stop | Shutdown | FlushPop | FlushRun | LastNotify

  const START := State(Running, [], Test, Idle, 0, [], [], multiset{})

  function Signal(w: Worker): Worker {
    if w == Waiting then Woken else w
  }

  /** The first task leaves the queue. */
  function Pop(s: State): State
    requires s.tasks != []
  {
    s.(tasks := s.tasks[1..], taken := s.taken + [s.tasks[0]])
  }

  predicate Enabled(s: State, step: Step) {
    match step
    case Add(_) => true
    case Notify => s.owed > 0
    case WorkerTest => s.worker == Test
    case WorkerLock => s.worker == Lock
    case WorkerRelock => s.worker == Woken
    case WorkerRun => s.worker.Busy?
    case SpuriousWakeup => s.worker == Waiting
    case Flush => s.controller == Idle
    case Stop => s.controller == Idle
    case Shutdown => s.controller == Idle
    case FlushPop => s.controller.Flushing?
    case FlushRun => s.controller.Flusher?
    case LastNotify => s.controller == Notifying
  }

  function Next(s: State, step: Step): State
    requires Enabled(s, step)
  {
    match step
    case Add(task) =>
      if s.state != Running then s
      else s.(tasks := s.tasks + [task], accepted := s.accepted + [task],
              owed := if s.tasks == [] then s.owed + 1 else s.owed)
    case Notify => s.(owed := s.owed - 1, worker := Signal(s.worker))
    case WorkerTest => s.(worker := if s.state == Terminated then Done else Lock)
    case WorkerLock => if s.tasks == [] then s.(worker := Waiting) else Pop(s).(worker := Busy(s.tasks[0]))
    case WorkerRelock => if s.tasks == [] then s.(worker := Test) else Pop(s).(worker := Busy(s.tasks[0]))
    case WorkerRun => s.(worker := Test, executed := s.executed + multiset{s.worker.task})
    case SpuriousWakeup => s.(worker := Woken)
    case Flush => s.(controller := Flushing(false))
    case Stop => s.(state := Closing)
    case Shutdown => s.(state := Terminated, controller := Flushing(true))
    case FlushPop =>
      var last := s.controller.last;
      if s.tasks != [] then Pop(s).(controller := Flusher(s.tasks[0], last))
      else s.(controller := if last then Notifying else Idle)
    case FlushRun =>
      s.(controller := Flushing(s.controller.last), executed := s.executed + multiset{s.controller.task})
    case LastNotify => s.(controller := Finished, worker := Signal(s.worker))
  }

  /** The states after each step, if every step is possible. */
  ghost predicate Possible(s: State, steps: seq<Step>)
    decreases |steps|
  {
    steps == [] || (Enabled(s, steps[0]) && Possible(Next(s, steps[0]), steps[1..]))
  }

  ghost function After(s: State, steps: seq<Step>): State
    requires Possible(s, steps)
    decreases |steps|
  {
    if steps == [] then s else After(Next(s, steps[0]), steps[1..])
  }

  /** Tasks taken from the queue whose run has not ended. */
  function InHand(s: State): multiset<Task> {
    (if s.worker.Busy? then multiset{s.worker.task} else multiset{})
    + if s.controller.Flusher? then multiset{s.controller.task} else multiset{}
  }

  predicate ShuttingDown(c: Controller) {
    c == Notifying || c == Finished || (c.Flushing? && c.last) || (c.Flusher? && c.last)
  }

  ghost predicate Inv(s: State) {
    // tasks leave the queue in the order in which they were accepted
    && s.accepted == s.taken + s.tasks
    // each task taken is run once
    && multiset(s.taken) == s.executed + InHand(s)
    // a waiting worker with work to do will be notified
    && (s.worker == Waiting && s.tasks != [] ==> s.owed > 0)
    // after shutdown nothing is accepted, and its flush leaves nothing behind
    && (s.state == Terminated <==> ShuttingDown(s.controller))
    && (s.controller == Notifying || s.controller == Finished ==> s.tasks == [])
    && (s.worker == Done ==> s.state == Terminated)
  }

  lemma {:induction false} NextKeepsInv(s: State, step: Step)
    requires Inv(s) && Enabled(s, step)
    ensures Inv(Next(s, step))
    ensures s.accepted <= Next(s, step).accepted && s.taken <= Next(s, step).taken
  {
    if s.tasks != [] && (step == WorkerLock || step == WorkerRelock || step == FlushPop) {
      TakingKeepsInv(s, step);
    } else if step == WorkerRun || step == FlushRun {
      EndOfRunKeepsInv(s, step);
    } else if step.Add? && s.state == Running {
      assert Next(s, step).accepted == Next(s, step).taken + Next(s, step).tasks;
    } else {
      OtherStepKeepsInv(s, step);
    }
  }

  /** A step that neither adds, takes nor runs a task. */
  lemma {:induction false} OtherStepKeepsInv(s: State, step: Step)
    requires Inv(s) && Enabled(s, step)
    requires step == WorkerLock || step == WorkerRelock || step == FlushPop ==> s.tasks == []
    requires step != WorkerRun && step != FlushRun && (step.Add? ==> s.state != Running)
    ensures Inv(Next(s, step)) && Next(s, step).accepted == s.accepted && Next(s, step).taken == s.taken
  {
    var n := Next(s, step);
    assert n.tasks == s.tasks && n.executed == s.executed;
    assert InHand(n) == InHand(s);
  }

  lemma {:induction false} TakingKeepsInv(s: State, step: Step)
    requires Inv(s) && Enabled(s, step) && s.tasks != []
             && (step == WorkerLock || step == WorkerRelock || step == FlushPop)
    ensures Inv(Next(s, step)) && s.taken <= Next(s, step).taken
  {
    Popped(s);
    assert InHand(Next(s, step)) == InHand(s) + multiset{s.tasks[0]};
  }

  lemma {:induction false} EndOfRunKeepsInv(s: State, step: Step)
    requires Inv(s) && Enabled(s, step) && (step == WorkerRun || step == FlushRun)
    ensures Inv(Next(s, step))
  {
    var task := if step == WorkerRun then s.worker.task else s.controller.task;
    assert InHand(s) == InHand(Next(s, step)) + multiset{task};
  }

  lemma {:induction false} Popped(s: State)
    requires s.accepted == s.taken + s.tasks && s.tasks != []
    ensures var n := Pop(s);
            n.accepted == n.taken + n.tasks && s.taken <= n.taken
            && multiset(n.taken) == multiset(s.taken) + multiset{s.tasks[0]}
  {
    assert s.tasks == [s.tasks[0]] + s.tasks[1..];
  }

  /** Whatever the interleaving. */
  lemma {:induction false} RunKeepsInv(s: State, steps: seq<Step>)
    requires Inv(s) && Possible(s, steps)
    ensures Inv(After(s, steps))
    ensures s.accepted <= After(s, steps).accepted && s.taken <= After(s, steps).taken
    decreases |steps|
  {
    if steps != [] {
      NextKeepsInv(s, steps[0]);
      RunKeepsInv(Next(s, steps[0]), steps[1..]);
    }
  }

  /**
   In every run from the start, tasks are taken in the order accepted and none twice; once shutdown has
   flushed, every accepted task has been run exactly once, but for the one the worker still has in hand.
   */
  lemma {:induction false} EveryTaskOnce(steps: seq<Step>)
    requires Possible(START, steps)
    ensures var s := After(START, steps);
            s.taken <= s.accepted && s.executed <= multiset(s.accepted)
    ensures var s := After(START, steps);
            s.controller == Finished ==>
              s.taken == s.accepted
              && multiset(s.accepted) == s.executed + if s.worker.Busy? then multiset{s.worker.task} else multiset{}
  {
    RunKeepsInv(START, steps);
    var s := After(START, steps);
    assert multiset(s.accepted) == multiset(s.taken) + multiset(s.tasks);
  }

  // ----- no wakeup is lost while the worker runs

  /** Steps of the worker, and the notifications it is owed. */
  predicate OwnStep(step: Step) {
    step == Notify || step == WorkerTest || step == WorkerLock || step == WorkerRelock || step == WorkerRun
  }

  function Stage(w: Worker): nat {
    match w
    case Busy(_) => 4
    case Woken => 3
    case Test => 2
    case Lock => 1
    case Waiting => 0
    case Done => 0
  }

  function Effort(s: State): nat {
    Stage(s.worker) + 4 * |s.tasks| + 4 * s.owed
  }

  /** The worker cannot run for ever without new tasks. */
  lemma {:induction false} OwnStepEnds(s: State, step: Step)
    requires Enabled(s, step) && OwnStep(step)
    ensures Effort(Next(s, step)) < Effort(s)
  {
  }

  lemma {:induction false} OwnStepsEnd(s: State, steps: seq<Step>)
    requires Possible(s, steps) && forall step :: step in steps ==> OwnStep(step)
    ensures |steps| + Effort(After(s, steps)) <= Effort(s)
    decreases |steps|
  {
    if steps != [] {
      OwnStepEnds(s, steps[0]);
      OwnStepsEnd(Next(s, steps[0]), steps[1..]);
    }
  }

  /**
   When neither the worker nor a notification can go on before shutdown, every accepted task is done but one
   being flushed.
   */
  lemma {:induction false} QuietMeansDone(s: State)
    requires Inv(s) && s.state != Terminated && forall step :: OwnStep(step) ==> !Enabled(s, step)
    ensures s.worker == Waiting && s.tasks == []
    ensures multiset(s.accepted) == s.executed +
            if s.controller.Flusher? then multiset{s.controller.task} else multiset{}
  {
    assert !Enabled(s, Notify) && !Enabled(s, WorkerTest) && !Enabled(s, WorkerLock);
    assert !Enabled(s, WorkerRelock) && !Enabled(s, WorkerRun);
    assert multiset(s.accepted) == multiset(s.taken) + multiset(s.tasks);
  }

  // ----- the wakeup that shutdown may lose

  /** Whether the worker comes to its end by its own steps. */
  ghost predicate Ends(s: State) {
    exists steps ::
      Possible(s, steps) && (forall step :: step in steps ==> OwnStep(step)) && After(s, steps).worker == Done
  }

  /**
   The last notification ends the worker except when it has tested the state before shutdown but not
   yet taken the lock: then it goes to wait, and only a notification that another thread still owes can end it.
   */
  lemma {:induction false} ShutdownEndsWorkerIff(s: State)
    requires Inv(s) && s.controller == Notifying
    ensures Ends(Next(s, LastNotify)) <==> s.worker != Lock || s.owed > 0
  {
    var n := Next(s, LastNotify);
    match s.worker
    case Lock =>
      if s.owed > 0 {
        EndsBy(n, [WorkerLock, Notify, WorkerRelock, WorkerTest]);
      } else {
        forall steps | Possible(n, steps) && forall step :: step in steps ==> OwnStep(step)
          ensures After(n, steps).worker != Done
        {
          StuckWaiting(n, steps);
        }
      }
    case Waiting => EndsBy(n, [WorkerRelock, WorkerTest]);
    case Woken => EndsBy(n, [WorkerRelock, WorkerTest]);
    case Test => EndsBy(n, [WorkerTest]);
    case Busy(_) => EndsBy(n, [WorkerRun, WorkerTest]);
    case Done => EndsBy(n, []);
  }

  lemma {:induction false} EndsBy(s: State, steps: seq<Step>)
    requires Possible(s, steps) && (forall step :: step in steps ==> OwnStep(step)) && After(s, steps).worker == Done
    ensures Ends(s)
  {
  }

  lemma {:induction false} StuckWaiting(s: State, steps: seq<Step>)
    requires s.tasks == [] && s.owed == 0 && (s.worker == Lock || s.worker == Waiting)
    requires Possible(s, steps) && forall step :: step in steps ==> OwnStep(step)
    ensures After(s, steps).worker == Lock || After(s, steps).worker == Waiting
    decreases |steps|
  {
    if steps != [] {
      assert OwnStep(steps[0]);
      StuckWaiting(Next(s, steps[0]), steps[1..]);
    }
  }

  /** A run in which that happens. */
  lemma {:induction false} ShutdownCanMissWorker()
    ensures var steps := [WorkerTest, Shutdown, FlushPop, LastNotify, WorkerLock];
            Possible(START, steps) && After(START, steps).controller == Finished && !Ends(After(START, steps))
  {
    var s1 := Next(START, WorkerTest);
    var s2 := Next(s1, Shutdown);
    var s3 := Next(s2, FlushPop);
    var s4 := Next(s3, LastNotify);
    var s5 := Next(s4, WorkerLock);
    var steps := [WorkerTest, Shutdown, FlushPop, LastNotify, WorkerLock];
    assert Possible(START, steps) && After(START, steps) == s5 by {
      assert steps[1..] == [Shutdown, FlushPop, LastNotify, WorkerLock];
      assert steps[1..][1..] == [FlushPop, LastNotify, WorkerLock];
      assert steps[1..][1..][1..] == [LastNotify, WorkerLock];
      assert steps[1..][1..][1..][1..] == [WorkerLock];
      assert steps[1..][1..][1..][1..][1..] == [];
    }
    forall more | Possible(s5, more) && forall step :: step in more ==> OwnStep(step)
      ensures After(s5, more).worker != Done
    {
      StuckWaiting(s5, more);
    }
  }
}
