/** The scheduler: a queue of scheduled tasks and the loop that fires them.

    The library's `run` reads the clock, peeks at the earliest entry and then
    either returns (queue empty), fires the entry (due) or sleeps until it is
    due. Here one pass of that loop is `Step`, whose clock reading is a
    parameter, and `Run` drives `Step` over a finite sequence of readings.
    Invoking an action is recorded in the step's outcome; sleeping is
    recorded with the exact wait. */
module Scheduling {
  import opened Optional
  import opened Time
  import opened Schedules
  import opened Scheduled
  import opened Queue

  /** What one pass of the run loop did. */
  datatype StepOutcome =
    | Finished                      // the queue was empty: `run` returns
    | Fired(entry: ScheduledTask)   // `entry` was due: its action was invoked
    | Slept(wait: Duration)         // nothing was due: slept for `wait`

  /** The entries the scheduler starts with: every task due at the shared
      `baseline` plus its schedule's wait. */
  ghost function FirstDue(tasks: seq<Task>, baseline: Stbi): seq<ScheduledTask>
  {
    seq(|tasks|, i requires 0 <= i < |tasks| =>
      ScheduledTask(baseline.Add(tasks[i].schedule.AsDuration()), tasks[i]))
  }

  /** The effect of one pass of the run loop at clock reading `now` on the
      pending entries. */
  ghost predicate StepRel(before: multiset<ScheduledTask>, now: Stbi, o: StepOutcome,
                          after: multiset<ScheduledTask>)
  {
    match o
    case Finished =>
      before == multiset{} && after == before
    case Slept(wait) =>
      && after == before
      && wait != ZERO
      && exists e :: IsEarliest(e, before) && e.at.instant == now.instant + wait
    case Fired(e) =>
      && IsEarliest(e, before)
      && e.at.instant <= now.instant
      && after == before - multiset{e} +
           (match Requeued(e, now) case None => multiset{} case Some(n) => multiset{n})
  }

  /** `states[i]` are the pending entries before the `i`-th pass, which read
      `clock[i]` and did `trace[i]`. */
  ghost predicate Execution(states: seq<multiset<ScheduledTask>>, clock: seq<Stbi>,
                            trace: seq<StepOutcome>)
  {
    && |states| == |trace| + 1
    && |trace| <= |clock|
    && forall i :: 0 <= i < |trace| ==> StepRel(states[i], clock[i], trace[i], states[i + 1])
  }

  /** An execution followed by one more pass is an execution. */
  lemma ExecutionExtend(states: seq<multiset<ScheduledTask>>, clock: seq<Stbi>,
                        trace: seq<StepOutcome>, o: StepOutcome, next: multiset<ScheduledTask>)
    requires Execution(states, clock, trace)
    requires |trace| < |clock|
    requires StepRel(states[|trace|], clock[|trace|], o, next)
    ensures Execution(states + [next], clock, trace + [o])
  {
    var states', trace' := states + [next], trace + [o];
    forall i | 0 <= i < |trace'|
      ensures StepRel(states'[i], clock[i], trace'[i], states'[i + 1])
    {
      if i < |trace| {
        assert states'[i] == states[i] && states'[i + 1] == states[i + 1] && trace'[i] == trace[i];
      }
    }
  }

  class Scheduler {
    const schedule: TaskQueue

    ghost predicate Valid()
      reads this, schedule
    {
      schedule.Valid()
    }

    /** The entries still pending. */
    ghost function Pending(): multiset<ScheduledTask>
      reads this, schedule
    {
      schedule.Contents()
    }

    /** `with_tasks`: the clock is read once, as `now`, and every task is
        queued at `now` plus its schedule's wait. */
    constructor WithTasks(tasks: seq<Task>, now: Stbi)
      ensures Valid() && fresh(schedule)
      ensures Pending() == multiset(FirstDue(tasks, now))
    {
      var q := new TaskQueue();
      for i := 0 to |tasks|
        invariant q.Valid()
        invariant q.Contents() == multiset(FirstDue(tasks[..i], now))
      {
        var task := tasks[i];
        var at := now.Add(task.schedule.AsDuration());
        assert FirstDue(tasks[..i + 1], now) == FirstDue(tasks[..i], now) + [ScheduledTask(at, task)];
        q.Push(ScheduledTask(at, task));
      }
      assert tasks[..|tasks|] == tasks;
      schedule := q;
    }

    /** One pass of `run` at clock reading `now`. */
    method Step(now: Stbi) returns (o: StepOutcome)
      requires Valid()
      modifies schedule
      ensures Valid()
      ensures StepRel(old(Pending()), now, o, Pending())
    {
      var top := schedule.Peek();
      if top == None {
        return Finished;
      }
      var diff := top.value.at.Since(now);
      if diff == ZERO {
        var popped := schedule.Pop();
        var task := popped.value;
        o := Fired(task);
        var next := Requeued(task, now);
        if next.Some? {
          schedule.Push(next.value);
        }
      } else {
        o := Slept(diff);
      }
    }

    /** `run`, over the clock readings `clock`: one pass per reading, stopping
        after the first pass that finds the queue empty. */
    method Run(clock: seq<Stbi>) returns (trace: seq<StepOutcome>, ghost states: seq<multiset<ScheduledTask>>)
      requires Valid()
      modifies schedule
      ensures Valid()
      ensures Execution(states, clock, trace)
      ensures states[0] == old(Pending()) && states[|trace|] == Pending()
      ensures forall i :: 0 <= i < |trace| - 1 ==> !trace[i].Finished?
      ensures |trace| == |clock| || (|trace| > 0 && trace[|trace| - 1] == Finished)
      ensures |trace| > 0 && trace[|trace| - 1] == Finished ==> Pending() == multiset{}
    {
      trace, states := [], [Pending()];
      for i := 0 to |clock|
        invariant Valid()
        invariant |trace| == i
        invariant Execution(states, clock, trace)
        invariant states[0] == old(Pending()) && states[i] == Pending()
        invariant forall j :: 0 <= j < i ==> !trace[j].Finished?
      {
        var o := Step(clock[i]);
        ExecutionExtend(states, clock, trace, o, Pending());
        trace, states := trace + [o], states + [Pending()];
        if o == Finished {
          assert Pending() == multiset{};
          return;
        }
      }
    }
  }
}
