/**
 * The concurrency budget: a semaphore shared by any number of download tasks, and the tuner that
 * grows it step by step and takes the last step back. Scheduling, timing and speeds are arbitrary.
 */
module ConcurrencyBudget {

  datatype Optimization = TakeStep | Accept | Finished

  /** Where a task stands in `tune_with_concurrency_budget` or `with_concurrency_budget`. */
  datatype Phase =
    | Waiting      // for its permits
    | Running      // the request itself
    | Measured     // about to look at the flag that ends tuning
    | Interested   // saw the flag unset, about to try the tuner's read lock
    | Reading      // holds the tuner's read lock
    | Counting     // about to count itself for the one-in-five choice
    | Locking      // about to try the write lock
    | Tuning       // holds the write lock, about to tune
    | Tuned        // has tuned and still holds the write lock
    | Finishing    // has ended tuning, holds the write lock and its permits
    | Undoing      // holds the write lock and no permits, waits for the permit to forget
    | Unlocking    // has forgotten that permit and still holds the write lock
    | Leaving      // holds its permits only
    | Done

  datatype Task = Task(requested: nat, phase: Phase)

  datatype State = State(
    initial: nat, available: int, forgotten: nat, increments: nat,
    tuner: Optimization, finishedTuning: bool, readers: int, writer: bool, tasks: seq<Task>)

  /** A fixed budget taken from the environment counts as already tuned. */
  function Init(initial: nat, fixed: bool): State {
    State(initial, initial, 0, 0, TakeStep, fixed, 0, false, [])
  }

  datatype Step =
    | Spawn(requested: nat)
    | Acquire(t: nat)
    | Respond(t: nat)
    | Return(t: nat)
    | SeeUnfinished(t: nat)
    | TryRead(t: nat)
    | ReleaseRead(t: nat)
    | DropRead(t: nat)
    | PickWriter(t: nat)
    | TryWrite(t: nat)
    | Tune(t: nat, increased: bool)
    | DropPermits(t: nat)
    | Undo(t: nat)
    | Unlock(t: nat)

  predicate Enabled(s: State, step: Step) {
    if step.Spawn? then step.requested <= s.initial  // the assert at the start of a task
    else
      step.t < |s.tasks| &&
      var task := s.tasks[step.t];
      match step
      case Acquire(_) => task.phase.Waiting? && task.requested <= s.available
      case Respond(_) => task.phase.Running?
      case Return(_) =>
        || task.phase.Running?                                   // `with_concurrency_budget`
        || task.phase.Measured? || task.phase.Counting? || task.phase.Leaving?
        || (task.phase.Interested? && s.writer)                  // `try_read` fails
        || (task.phase.Locking? && (s.readers > 0 || s.writer))  // `try_write` fails
      case SeeUnfinished(_) => task.phase.Measured? && !s.finishedTuning
      case TryRead(_) => task.phase.Interested? && !s.writer
      case ReleaseRead(_) => task.phase.Reading?                 // on the way out
      case DropRead(_) => task.phase.Reading? && !s.tuner.Finished?
      case PickWriter(_) => task.phase.Counting?
      case TryWrite(_) => task.phase.Locking? && s.readers == 0 && !s.writer
      case Tune(_, _) => task.phase.Tuning?
      case DropPermits(_) => task.phase.Finishing?
      case Undo(_) => task.phase.Undoing? && s.available >= 1
      case Unlock(_) => task.phase.Tuned? || task.phase.Unlocking?
  }

  function SetPhase(s: State, t: nat, p: Phase): State
    requires t < |s.tasks|
  {
    s.(tasks := s.tasks[t := s.tasks[t].(phase := p)])
  }

  /** `SemaphoreTuner::increment`. */
  function Increment(s: State): State {
    s.(available := s.available + 1, increments := s.increments + 1)
  }

  /** One atomic step of one task. */
  function Next(s: State, step: Step): State
    requires Enabled(s, step)
  {
    match step
    case Spawn(requested) => s.(tasks := s.tasks + [Task(requested, Waiting)])
    case Acquire(t) => SetPhase(s, t, Running).(available := s.available - s.tasks[t].requested)
    case Respond(t) => SetPhase(s, t, Measured)
    case Return(t) => SetPhase(s, t, Done).(available := s.available + s.tasks[t].requested)
    case SeeUnfinished(t) => SetPhase(s, t, Interested)
    case TryRead(t) => SetPhase(s, t, Reading).(readers := s.readers + 1)
    case ReleaseRead(t) => SetPhase(s, t, Leaving).(readers := s.readers - 1)
    case DropRead(t) => SetPhase(s, t, Counting).(readers := s.readers - 1)
    case PickWriter(t) => SetPhase(s, t, Locking)
    case TryWrite(t) => SetPhase(s, t, Tuning).(writer := true)
    case Tune(t, increased) =>
      match s.tuner {
        case TakeStep => SetPhase(Increment(s), t, Tuned).(tuner := Accept)
        case Accept =>
          if increased then SetPhase(Increment(s), t, Tuned)
          else SetPhase(s, t, Finishing).(tuner := Finished, finishedTuning := true)
        case Finished => SetPhase(s, t, Tuned)
      }
    case DropPermits(t) => SetPhase(s, t, Undoing).(available := s.available + s.tasks[t].requested)
    case Undo(t) => SetPhase(s, t, Unlocking).(available := s.available - 1, forgotten := s.forgotten + 1)
    case Unlock(t) => SetPhase(s, t, if s.tasks[t].phase.Tuned? then Leaving else Done).(writer := false)
  }

  // Totals over all tasks.

  datatype Measure = Held | Readers | Writers | Undoers | Rank

  function Weight(task: Task, m: Measure): nat {
    match m
    case Held =>
      if task.phase.Waiting? || task.phase.Undoing? || task.phase.Unlocking? || task.phase.Done? then 0
      else task.requested
    case Readers => if task.phase.Reading? then 1 else 0
    case Writers =>
      if task.phase.Tuning? || task.phase.Tuned? || task.phase.Finishing? || task.phase.Undoing? || task.phase.Unlocking?
      then 1 else 0
    case Undoers => if task.phase.Finishing? || task.phase.Undoing? then 1 else 0
    case Rank =>
      match task.phase {
        case Waiting => 12
        case Running => 11
        case Measured => 10
        case Interested => 9
        case Reading => 8
        case Counting => 7
        case Locking => 6
        case Tuning => 5
        case Finishing => 4
        case Undoing => 3
        case Tuned => 2
        case Unlocking => 2
        case Leaving => 1
        case Done => 0
      }
  }

  function Total(tasks: seq<Task>, m: Measure): nat {
    if tasks == [] then 0 else Total(tasks[..|tasks| - 1], m) + Weight(tasks[|tasks| - 1], m)
  }

  lemma TotalSnoc(tasks: seq<Task>, task: Task, m: Measure)
    ensures Total(tasks + [task], m) == Total(tasks, m) + Weight(task, m)
  {
    assert (tasks + [task])[..|tasks|] == tasks;
  }

  lemma {:induction false} TotalSet(tasks: seq<Task>, t: nat, task: Task, m: Measure)
    requires t < |tasks|
    ensures Total(tasks[t := task], m) == Total(tasks, m) - Weight(tasks[t], m) + Weight(task, m)
    ensures Weight(tasks[t], m) <= Total(tasks, m)
  {
    var last := |tasks| - 1;
    if t == last {
      assert tasks[t := task][..last] == tasks[..last];
    } else {
      assert tasks[t := task][..last] == tasks[..last][t := task];
      TotalSet(tasks[..last], t, task, m);
    }
  }

  lemma {:induction false} TotalZero(tasks: seq<Task>, m: Measure)
    requires forall t :: 0 <= t < |tasks| ==> Weight(tasks[t], m) == 0
    ensures Total(tasks, m) == 0
  {
    if tasks != [] {
      TotalZero(tasks[..|tasks| - 1], m);
    }
  }

  /** The phase a step leads its task to. */
  function PhaseAfter(s: State, step: Step): Phase
    requires !step.Spawn?
  {
    match step
    case Acquire(_) => Running
    case Respond(_) => Measured
    case Return(_) => Done
    case SeeUnfinished(_) => Interested
    case TryRead(_) => Reading
    case ReleaseRead(_) => Leaving
    case DropRead(_) => Counting
    case PickWriter(_) => Locking
    case TryWrite(_) => Tuning
    case Tune(_, increased) => if s.tuner.Accept? && !increased then Finishing else Tuned
    case DropPermits(_) => Undoing
    case Undo(_) => Unlocking
    case Unlock(t) => if t < |s.tasks| && s.tasks[t].phase.Tuned? then Leaving else Done
  }

  /** A step touches one task only. */
  lemma NextTasks(s: State, step: Step)
    requires Enabled(s, step)
    ensures Next(s, step).tasks ==
            if step.Spawn? then s.tasks + [Task(step.requested, Waiting)]
            else s.tasks[step.t := s.tasks[step.t].(phase := PhaseAfter(s, step))]
  {
  }

  /** How a step changes a total: by the weight of the one task it touches. */
  lemma NextTotal(s: State, step: Step, m: Measure)
    requires Enabled(s, step)
    ensures var u := Next(s, step);
            if step.Spawn? then Total(u.tasks, m) == Total(s.tasks, m) + Weight(Task(step.requested, Waiting), m)
            else
              var after := s.tasks[step.t].(phase := PhaseAfter(s, step));
              && Total(u.tasks, m) == Total(s.tasks, m) - Weight(s.tasks[step.t], m) + Weight(after, m)
              && Weight(s.tasks[step.t], m) <= Total(s.tasks, m)
  {
    NextTasks(s, step);
    hide Next, Weight, Total, PhaseAfter;
    if step.Spawn? {
      TotalSnoc(s.tasks, Task(step.requested, Waiting), m);
    } else {
      TotalSet(s.tasks, step.t, s.tasks[step.t].(phase := PhaseAfter(s, step)), m);
    }
  }

  // The invariant.

  /** Permits are conserved, and the tuner's state says whether its one undo has begun. */
  ghost predicate Conserved(s: State) {
    && s.available >= 0
    && s.available + Total(s.tasks, Held) + s.forgotten == s.initial + s.increments
    && s.forgotten + Total(s.tasks, Undoers) == (if s.tuner.Finished? then 1 else 0)
    && (!s.tuner.TakeStep? ==> s.increments >= 1)
    && forall t :: 0 <= t < |s.tasks| ==> s.tasks[t].requested <= s.initial
  }

  /** The tuner's lock: any number of readers or one writer. */
  ghost predicate LockHeld(s: State) {
    && s.readers == Total(s.tasks, Readers)
    && Total(s.tasks, Writers) == (if s.writer then 1 else 0)
    && (s.writer ==> s.readers == 0)
  }

  lemma TuneConserves(s: State, step: Step)
    requires Conserved(s) && Enabled(s, step) && step.Tune?
    ensures Conserved(Next(s, step)) && Next(s, step).initial == s.initial
  {
    hide Total;
    NextTotal(s, step, Held);
    NextTotal(s, step, Undoers);
  }

  lemma PermitStepConserves(s: State, step: Step)
    requires Conserved(s) && Enabled(s, step) && (step.Acquire? || step.Return? || step.DropPermits? || step.Undo?)
    ensures Conserved(Next(s, step)) && Next(s, step).initial == s.initial
  {
    hide Total;
    NextTotal(s, step, Held);
    NextTotal(s, step, Undoers);
  }

  /** Every step conserves the permits. */
  lemma StepConserves(s: State, step: Step)
    requires Conserved(s) && Enabled(s, step)
    ensures Conserved(Next(s, step)) && Next(s, step).initial == s.initial
  {
    if step.Tune? {
      TuneConserves(s, step);
    } else if step.Acquire? || step.Return? || step.DropPermits? || step.Undo? {
      PermitStepConserves(s, step);
    } else {
      QuietStepConserves(s, step);
    }
  }

  lemma QuietStepConserves(s: State, step: Step)
    requires Conserved(s) && Enabled(s, step)
    requires !step.Tune? && !step.Acquire? && !step.Return? && !step.DropPermits? && !step.Undo?
    ensures Conserved(Next(s, step)) && Next(s, step).initial == s.initial
  {
    hide Total;
    NextTotal(s, step, Held);
    NextTotal(s, step, Undoers);
  }

  lemma WriterStepLocks(s: State, step: Step)
    requires LockHeld(s) && Enabled(s, step) && (step.TryWrite? || step.Tune? || step.DropPermits? || step.Undo? || step.Unlock?)
    ensures LockHeld(Next(s, step))
  {
    hide Total;
    NextTotal(s, step, Readers);
    NextTotal(s, step, Writers);
  }

  /** Every step keeps the lock's discipline. */
  lemma StepLocks(s: State, step: Step)
    requires LockHeld(s) && Enabled(s, step)
    ensures LockHeld(Next(s, step))
  {
    if step.TryWrite? || step.Tune? || step.DropPermits? || step.Undo? || step.Unlock? {
      WriterStepLocks(s, step);
    } else {
      ReaderStepLocks(s, step);
    }
  }

  lemma ReaderStepLocks(s: State, step: Step)
    requires LockHeld(s) && Enabled(s, step)
    requires !step.TryWrite? && !step.Tune? && !step.DropPermits? && !step.Undo? && !step.Unlock?
    ensures LockHeld(Next(s, step))
  {
    hide Total;
    NextTotal(s, step, Readers);
    NextTotal(s, step, Writers);
  }

  // Runs.

  ghost predicate IsRun(s: State, steps: seq<Step>, u: State)
    decreases |steps|
  {
    if steps == [] then s == u else Enabled(s, steps[0]) && IsRun(Next(s, steps[0]), steps[1..], u)
  }

  lemma {:induction false} RunInv(s: State, steps: seq<Step>, u: State)
    requires Conserved(s) && LockHeld(s) && IsRun(s, steps, u)
    ensures Conserved(u) && LockHeld(u) && u.initial == s.initial
    decreases |steps|
  {
    if steps != [] {
      StepConserves(s, steps[0]);
      StepLocks(s, steps[0]);
      RunInv(Next(s, steps[0]), steps[1..], u);
    }
  }

  ghost predicate Reachable(initial: nat, fixed: bool, u: State) {
    exists steps :: IsRun(Init(initial, fixed), steps, u)
  }

  lemma ReachableInv(initial: nat, fixed: bool, u: State)
    requires Reachable(initial, fixed, u)
    ensures Conserved(u) && LockHeld(u) && u.initial == initial
  {
    var steps :| IsRun(Init(initial, fixed), steps, u);
    RunInv(Init(initial, fixed), steps, u);
  }

  /** No permit is lost or invented, in every interleaving. */
  lemma PermitsConserved(initial: nat, fixed: bool, u: State)
    requires Reachable(initial, fixed, u)
    ensures u.available + Total(u.tasks, Held) + u.forgotten == initial + u.increments
    ensures u.available >= 0
  {
    ReachableInv(initial, fixed, u);
  }

  /** At most one undo ever happens, and only after an increment: capacity never drops below the start. */
  lemma OneUndo(initial: nat, fixed: bool, u: State)
    requires Reachable(initial, fixed, u)
    ensures u.forgotten <= 1
    ensures u.forgotten <= u.increments
    ensures u.available + Total(u.tasks, Held) >= initial
  {
    ReachableInv(initial, fixed, u);
  }

  /** Once the others have released their permits, any accepted request can be granted. */
  lemma RequestCanBeServed(initial: nat, fixed: bool, u: State, t: nat)
    requires Reachable(initial, fixed, u) && t < |u.tasks| && u.tasks[t].phase.Waiting?
    requires forall o :: 0 <= o < |u.tasks| ==> Weight(u.tasks[o], Held) == 0
    ensures Enabled(u, Acquire(t))
  {
    ReachableInv(initial, fixed, u);
    TotalZero(u.tasks, Held);
  }

  // Progress.

  /** A task that is past its first wait and does not wait for the undo permit can always go on. */
  predicate Busy(task: Task) {
    !task.phase.Waiting? && !task.phase.Undoing? && !task.phase.Done?
  }

  lemma BusyCanStep(s: State, t: nat) returns (step: Step)
    requires t < |s.tasks| && Busy(s.tasks[t]) && LockHeld(s)
    ensures !step.Spawn? && Enabled(s, step)
  {
    match s.tasks[t].phase
    case Running => step := Respond(t);
    case Measured => step := Return(t);
    case Interested => step := if s.writer then Return(t) else TryRead(t);
    case Reading => step := ReleaseRead(t);
    case Counting => step := PickWriter(t);
    case Locking => step := if s.readers > 0 || s.writer then Return(t) else TryWrite(t);
    case Tuning => step := Tune(t, true);
    case Tuned => step := Unlock(t);
    case Finishing => step := DropPermits(t);
    case Unlocking => step := Unlock(t);
    case Leaving => step := Return(t);
  }

  lemma SomeoneCanStep(u: State, t: nat) returns (step: Step)
    requires Conserved(u) && LockHeld(u) && t < |u.tasks| && !u.tasks[t].phase.Done?
    ensures !step.Spawn? && Enabled(u, step)
  {
    if busy :| 0 <= busy < |u.tasks| && Busy(u.tasks[busy]) {
      step := BusyCanStep(u, busy);
    } else {
      TotalZero(u.tasks, Held);
      if u.tasks[t].phase.Waiting? {
        step := Acquire(t);
      } else {
        TotalSet(u.tasks, t, u.tasks[t], Undoers);
        step := Undo(t);
      }
    }
  }

  /** Nobody is stuck: while a task is unfinished, some task can take a step. */
  lemma NoDeadlock(initial: nat, fixed: bool, u: State, t: nat)
    requires Reachable(initial, fixed, u) && t < |u.tasks| && !u.tasks[t].phase.Done?
    ensures exists step: Step :: !step.Spawn? && Enabled(u, step)
  {
    ReachableInv(initial, fixed, u);
    var step := SomeoneCanStep(u, t);
  }

  /** Every step of a task brings it closer to its end. */
  lemma StepAdvances(s: State, step: Step)
    requires Enabled(s, step) && !step.Spawn?
    ensures Total(Next(s, step).tasks, Rank) < Total(s.tasks, Rank)
  {
    hide Total, Next;
    NextTotal(s, step, Rank);
  }

  lemma {:induction false} RunBounded(s: State, steps: seq<Step>, u: State)
    requires IsRun(s, steps, u) && forall k :: 0 <= k < |steps| ==> !steps[k].Spawn?
    ensures |steps| + Total(u.tasks, Rank) <= Total(s.tasks, Rank)
    decreases |steps|
  {
    if steps != [] {
      StepAdvances(s, steps[0]);
      RunBounded(Next(s, steps[0]), steps[1..], u);
    }
  }

  /**
   * From any reachable state, the requests present take a bounded number of steps, and when no more step
   * is possible every task is done and every permit is back, but for the one taken back by tuning.
   */
  lemma AllTasksFinish(initial: nat, fixed: bool, s: State, steps: seq<Step>, u: State)
    requires Reachable(initial, fixed, s) && IsRun(s, steps, u)
    requires forall k :: 0 <= k < |steps| ==> !steps[k].Spawn?
    ensures |steps| <= Total(s.tasks, Rank)
    ensures (forall step: Step :: !step.Spawn? ==> !Enabled(u, step)) ==>
              && (forall t :: 0 <= t < |u.tasks| ==> u.tasks[t].phase.Done?)
              && u.available == initial + u.increments - (if u.tuner.Finished? then 1 else 0)
  {
    RunBounded(s, steps, u);
    ReachableInv(initial, fixed, s);
    RunInv(s, steps, u);
    if forall step: Step :: !step.Spawn? ==> !Enabled(u, step) {
      forall t | 0 <= t < |u.tasks|
        ensures u.tasks[t].phase.Done?
      {
        if !u.tasks[t].phase.Done? {
          var step := SomeoneCanStep(u, t);
        }
      }
      TotalZero(u.tasks, Held);
      TotalZero(u.tasks, Undoers);
    }
  }

  /** A budget fixed from the environment is never tuned. */
  lemma {:induction false} FixedBudgetRun(s: State, steps: seq<Step>, u: State)
    requires IsRun(s, steps, u) && Untuned(s)
    ensures Untuned(u) && u.increments == s.increments && u.forgotten == s.forgotten
    decreases |steps|
  {
    if steps != [] {
      FixedBudgetRun(Next(s, steps[0]), steps[1..], u);
    }
  }

  ghost predicate Untuned(s: State) {
    && s.finishedTuning
    && forall t :: 0 <= t < |s.tasks| ==>
      s.tasks[t].phase.Waiting? || s.tasks[t].phase.Running? || s.tasks[t].phase.Measured? || s.tasks[t].phase.Done?
  }

  lemma FixedBudget(initial: nat, u: State)
    requires Reachable(initial, true, u)
    ensures u.increments == 0 && u.forgotten == 0
  {
    var steps :| IsRun(Init(initial, true), steps, u);
    FixedBudgetRun(Init(initial, true), steps, u);
  }

  // What tuning did, read off the steps of a run.

  /** How many `tune` calls of a run found the tuner unfinished. */
  ghost function TuningSteps(s: State, steps: seq<Step>, u: State): nat
    requires IsRun(s, steps, u)
    decreases |steps|
  {
    if steps == [] then 0
    else (if steps[0].Tune? && !s.tuner.Finished? then 1 else 0) + TuningSteps(Next(s, steps[0]), steps[1..], u)
  }

  /** What one step does to the tuner. */
  lemma TunerStep(s: State, step: Step)
    requires Enabled(s, step)
    ensures var u := Next(s, step);
            if !step.Tune? || s.tuner.Finished? then
              u.tuner == s.tuner && u.increments == s.increments && u.finishedTuning == s.finishedTuning
            else if s.tuner.TakeStep? || step.increased then
              u.tuner == Accept && u.increments == s.increments + 1 && u.finishedTuning == s.finishedTuning
            else
              u.tuner == Finished && u.increments == s.increments && u.finishedTuning
  {
  }

  lemma {:induction false} TuningStepsRun(s: State, steps: seq<Step>, u: State)
    requires IsRun(s, steps, u)
    ensures s.increments + (if s.tuner.Finished? then 1 else 0) + TuningSteps(s, steps, u) ==
            u.increments + (if u.tuner.Finished? then 1 else 0)
    decreases |steps|
  {
    hide Next, Enabled;
    if steps != [] {
      TunerStep(s, steps[0]);
      TuningStepsRun(Next(s, steps[0]), steps[1..], u);
    }
  }

  /** Every `tune` call on an unfinished tuner adds a permit, except the one that finishes. */
  lemma EveryTuneCounts(initial: nat, fixed: bool, steps: seq<Step>, u: State)
    requires IsRun(Init(initial, fixed), steps, u)
    ensures TuningSteps(Init(initial, fixed), steps, u) == u.increments + (if u.tuner.Finished? then 1 else 0)
  {
    TuningStepsRun(Init(initial, fixed), steps, u);
  }

  /** The answers of the `tune` calls of a run: whether the speed had increased. */
  ghost function Answers(steps: seq<Step>): seq<bool> {
    if steps == [] then []
    else (if steps[0].Tune? then [steps[0].increased] else []) + Answers(steps[1..])
  }

  ghost function LeadingTrues(answers: seq<bool>): nat {
    if answers == [] || !answers[0] then 0 else 1 + LeadingTrues(answers[1..])
  }

  lemma {:induction false} FinishedRun(s: State, steps: seq<Step>, u: State)
    requires IsRun(s, steps, u) && s.tuner.Finished?
    ensures u.increments == s.increments && u.tuner.Finished? && u.finishedTuning == s.finishedTuning
    decreases |steps|
  {
    hide Next, Enabled;
    if steps != [] {
      TunerStep(s, steps[0]);
      FinishedRun(Next(s, steps[0]), steps[1..], u);
    }
  }

  lemma {:induction false} AcceptRun(s: State, steps: seq<Step>, u: State)
    requires IsRun(s, steps, u) && s.tuner.Accept?
    ensures u.increments == s.increments + LeadingTrues(Answers(steps))
    ensures u.tuner == if false in Answers(steps) then Finished else Accept
    ensures u.finishedTuning <==> s.finishedTuning || false in Answers(steps)
    decreases |steps|
  {
    hide Next, Enabled;
    if steps != [] {
      TunerStep(s, steps[0]);
      var next, rest := Next(s, steps[0]), steps[1..];
      if !steps[0].Tune? {
        assert Answers(steps) == Answers(rest);
        AcceptRun(next, rest, u);
      } else {
        assert Answers(steps)[0] == steps[0].increased && Answers(steps)[1..] == Answers(rest);
        if steps[0].increased {
          AcceptRun(next, rest, u);
          assert false in Answers(steps) <==> false in Answers(rest);
        } else {
          FinishedRun(next, rest, u);
        }
      }
    }
  }

  lemma {:induction false} TakeStepRun(s: State, steps: seq<Step>, u: State)
    requires IsRun(s, steps, u) && s.tuner.TakeStep?
    ensures var a := Answers(steps);
            if a == [] then u.increments == s.increments && u.tuner == TakeStep && u.finishedTuning == s.finishedTuning
            else
              && u.increments == s.increments + 1 + LeadingTrues(a[1..])
              && u.tuner == (if false in a[1..] then Finished else Accept)
              && (u.finishedTuning <==> s.finishedTuning || false in a[1..])
    decreases |steps|
  {
    hide Next, Enabled;
    if steps != [] {
      TunerStep(s, steps[0]);
      var next, rest := Next(s, steps[0]), steps[1..];
      if !steps[0].Tune? {
        assert Answers(steps) == Answers(rest);
        TakeStepRun(next, rest, u);
      } else {
        assert Answers(steps)[1..] == Answers(rest);
        AcceptRun(next, rest, u);
      }
    }
  }

  /**
   * The measured speeds alone decide how far the budget grows: the first `tune` always takes a step, each
   * later one takes another as long as the speed increased, and the first that did not ends tuning for good.
   */
  lemma GrowthFollowsSpeeds(initial: nat, fixed: bool, steps: seq<Step>, u: State)
    requires IsRun(Init(initial, fixed), steps, u)
    ensures var a := Answers(steps);
            if a == [] then u.increments == 0 && u.tuner == TakeStep && u.finishedTuning == fixed
            else
              && u.increments == 1 + LeadingTrues(a[1..])
              && u.tuner == (if false in a[1..] then Finished else Accept)
              && (u.finishedTuning <==> fixed || false in a[1..])
  {
    TakeStepRun(Init(initial, fixed), steps, u);
  }

  // Who gets the tuner's lock.

  predicate HoldsWriteLock(task: Task) {
    task.phase.Tuning? || task.phase.Tuned? || task.phase.Finishing? || task.phase.Undoing? || task.phase.Unlocking?
  }

  lemma {:induction false} TotalSome(tasks: seq<Task>, m: Measure) returns (t: nat)
    requires Total(tasks, m) > 0
    ensures t < |tasks| && Weight(tasks[t], m) > 0
  {
    if Weight(tasks[|tasks| - 1], m) > 0 {
      t := |tasks| - 1;
    } else {
      t := TotalSome(tasks[..|tasks| - 1], m);
    }
  }

  lemma WriterIsTask(initial: nat, fixed: bool, u: State)
    requires Reachable(initial, fixed, u)
    ensures u.writer <==> exists o :: 0 <= o < |u.tasks| && HoldsWriteLock(u.tasks[o])
  {
    ReachableInv(initial, fixed, u);
    if u.writer {
      var o := TotalSome(u.tasks, Writers);
      assert HoldsWriteLock(u.tasks[o]);
    }
    if o :| 0 <= o < |u.tasks| && HoldsWriteLock(u.tasks[o]) {
      TotalSet(u.tasks, o, u.tasks[o], Writers);
    }
  }

  lemma ReadersAreTasks(initial: nat, fixed: bool, u: State)
    requires Reachable(initial, fixed, u)
    ensures u.readers > 0 <==> exists o :: 0 <= o < |u.tasks| && u.tasks[o].phase.Reading?
  {
    ReachableInv(initial, fixed, u);
    if u.readers > 0 {
      var o := TotalSome(u.tasks, Readers);
      assert u.tasks[o].phase.Reading?;
    }
    if o :| 0 <= o < |u.tasks| && u.tasks[o].phase.Reading? {
      TotalSet(u.tasks, o, u.tasks[o], Readers);
    }
  }

  /** `try_read` fails, and its caller returns, exactly while another task holds the write lock. */
  lemma TryReadExact(initial: nat, fixed: bool, u: State, t: nat)
    requires Reachable(initial, fixed, u) && t < |u.tasks| && u.tasks[t].phase.Interested?
    ensures Enabled(u, Return(t)) <==> exists o :: 0 <= o < |u.tasks| && HoldsWriteLock(u.tasks[o])
    ensures Enabled(u, TryRead(t)) <==> !Enabled(u, Return(t))
  {
    WriterIsTask(initial, fixed, u);
  }

  /** `try_write` fails, and its caller returns, exactly while another task holds the lock either way. */
  lemma TryWriteExact(initial: nat, fixed: bool, u: State, t: nat)
    requires Reachable(initial, fixed, u) && t < |u.tasks| && u.tasks[t].phase.Locking?
    ensures Enabled(u, Return(t)) <==>
            exists o :: 0 <= o < |u.tasks| && (HoldsWriteLock(u.tasks[o]) || u.tasks[o].phase.Reading?)
    ensures Enabled(u, TryWrite(t)) <==> !Enabled(u, Return(t))
  {
    WriterIsTask(initial, fixed, u);
    ReadersAreTasks(initial, fixed, u);
    ReachableInv(initial, fixed, u);
  }

  // Tuning does happen: one whole request at a time.

  lemma {:induction false} RunSnoc(s: State, steps: seq<Step>, u: State, step: Step)
    requires IsRun(s, steps, u) && Enabled(u, step)
    ensures IsRun(s, steps + [step], Next(u, step))
    decreases |steps|
  {
    if steps == [] {
      assert (steps + [step])[1..] == [];
    } else {
      RunSnoc(Next(s, steps[0]), steps[1..], u, step);
      assert (steps + [step])[1..] == steps[1..] + [step];
    }
  }

  lemma ReachableStep(initial: nat, fixed: bool, u: State, step: Step)
    requires Reachable(initial, fixed, u) && Enabled(u, step)
    ensures Reachable(initial, fixed, Next(u, step))
  {
    var steps :| IsRun(Init(initial, fixed), steps, u);
    RunSnoc(Init(initial, fixed), steps, u, step);
  }

  /** The state with one more task, in a given phase. */
  function With(s: State, requested: nat, p: Phase): State {
    s.(tasks := s.tasks + [Task(requested, p)])
  }

  lemma WithSet(s: State, requested: nat, p: Phase, q: Phase)
    ensures SetPhase(With(s, requested, p), |s.tasks|, q) == With(s, requested, q)
  {
    assert (s.tasks + [Task(requested, p)])[|s.tasks| := Task(requested, q)] == s.tasks + [Task(requested, q)];
  }

  /** Nobody holds the tuner's lock and tuning goes on. */
  predicate Ready(s: State, requested: nat) {
    && requested <= s.initial && requested <= s.available
    && !s.writer && s.readers == 0 && !s.finishedTuning && !s.tuner.Finished?
  }

  /** A new request can get as far as the read lock. */
  lemma ReachesReading(initial: nat, s: State, requested: nat)
    requires Reachable(initial, false, s) && Ready(s, requested)
    ensures Reachable(initial, false, With(s, requested, Reading).(available := s.available - requested, readers := 1))
  {
    hide Reachable;
    var t := |s.tasks|;
    var held := s.(available := s.available - requested);
    ReachableStep(initial, false, s, Spawn(requested));
    WithSet(s, requested, Waiting, Running);
    ReachableStep(initial, false, With(s, requested, Waiting), Acquire(t));
    WithSet(held, requested, Running, Measured);
    ReachableStep(initial, false, With(held, requested, Running), Respond(t));
    WithSet(held, requested, Measured, Interested);
    ReachableStep(initial, false, With(held, requested, Measured), SeeUnfinished(t));
    WithSet(held, requested, Interested, Reading);
    ReachableStep(initial, false, With(held, requested, Interested), TryRead(t));
  }

  /** And on to the write lock. */
  lemma ReachesTuning(initial: nat, s: State, requested: nat)
    requires Reachable(initial, false, s) && Ready(s, requested)
    ensures Reachable(initial, false, With(s, requested, Tuning).(available := s.available - requested, writer := true))
  {
    hide Reachable;
    var t := |s.tasks|;
    var held := s.(available := s.available - requested);
    var reading := held.(readers := 1);
    ReachesReading(initial, s, requested);
    WithSet(reading, requested, Reading, Counting);
    ReachableStep(initial, false, With(reading, requested, Reading), DropRead(t));
    WithSet(held, requested, Counting, Locking);
    ReachableStep(initial, false, With(held, requested, Counting), PickWriter(t));
    WithSet(held, requested, Locking, Tuning);
    ReachableStep(initial, false, With(held, requested, Locking), TryWrite(t));
  }

  /** A whole request that takes a step: one permit more, and everything else back where it was. */
  lemma GrowingRequest(initial: nat, s: State, requested: nat)
    requires Reachable(initial, false, s) && Ready(s, requested)
    ensures Reachable(initial, false,
      With(s, requested, Done).(available := s.available + 1, increments := s.increments + 1, tuner := Accept))
  {
    hide Reachable;
    var t := |s.tasks|;
    var locked := s.(available := s.available - requested, writer := true);
    var grown := locked.(available := s.available - requested + 1, increments := s.increments + 1, tuner := Accept);
    ReachesTuning(initial, s, requested);
    WithSet(grown.(tuner := s.tuner), requested, Tuning, Tuned);
    ReachableStep(initial, false, With(locked, requested, Tuning), Tune(t, true));
    WithSet(grown, requested, Tuned, Leaving);
    ReachableStep(initial, false, With(grown, requested, Tuned), Unlock(t));
    var free := grown.(writer := false);
    WithSet(free, requested, Leaving, Done);
    ReachableStep(initial, false, With(free, requested, Leaving), Return(t));
  }

  /** A whole request that ends tuning: the last permit is taken back. */
  lemma FinishingRequest(initial: nat, s: State, requested: nat)
    requires Reachable(initial, false, s) && Ready(s, requested) && s.tuner.Accept? && s.available >= 1
    ensures Reachable(initial, false,
      With(s, requested, Done).(
        available := s.available - 1, forgotten := s.forgotten + 1, tuner := Finished, finishedTuning := true))
  {
    hide Reachable;
    var t := |s.tasks|;
    var locked := s.(available := s.available - requested, writer := true);
    var ended := locked.(tuner := Finished, finishedTuning := true);
    ReachesTuning(initial, s, requested);
    WithSet(locked, requested, Tuning, Finishing);
    ReachableStep(initial, false, With(locked, requested, Tuning), Tune(t, false));
    WithSet(ended, requested, Finishing, Undoing);
    ReachableStep(initial, false, With(ended, requested, Finishing), DropPermits(t));
    var back := ended.(available := s.available);
    WithSet(back, requested, Undoing, Unlocking);
    ReachableStep(initial, false, With(back, requested, Undoing), Undo(t));
    var undone := back.(available := s.available - 1, forgotten := s.forgotten + 1);
    WithSet(undone, requested, Unlocking, Done);
    ReachableStep(initial, false, With(undone, requested, Unlocking), Unlock(t));
  }

  /** The budget can grow to any size, all permits free. */
  lemma {:induction false} BudgetGrows(initial: nat, steps: nat) returns (u: State)
    ensures Reachable(initial, false, u) && u.available == initial + steps && u.increments == steps
    ensures Ready(u, 0) && u.initial == initial && u.forgotten == 0 && (steps > 0 ==> u.tuner.Accept?)
  {
    if steps == 0 {
      u := Init(initial, false);
      assert IsRun(u, [], u);
    } else {
      var s := BudgetGrows(initial, steps - 1);
      GrowingRequest(initial, s, 0);
      u := With(s, 0, Done).(available := s.available + 1, increments := s.increments + 1, tuner := Accept);
    }
  }

  /** And tuning can end at any size, one permit below the last step. */
  lemma BudgetSettles(initial: nat, steps: nat) returns (u: State)
    requires steps > 0
    ensures Reachable(initial, false, u) && u.available == initial + steps - 1 && u.increments == steps
    ensures u.forgotten == 1 && u.tuner.Finished? && u.finishedTuning
  {
    var s := BudgetGrows(initial, steps);
    FinishingRequest(initial, s, 0);
    u := With(s, 0, Done).(available := s.available - 1, forgotten := 1, tuner := Finished, finishedTuning := true);
  }
}
