/** What the run loop guarantees, stated over `StepRel` (one pass) and
    `Execution` (a sequence of passes): which of its three branches a pass
    takes, how the queue changes, that an `Every` task never leaves the queue,
    and that a queue of `Once` tasks runs down and empties. */
module SchedulerProperties {
  import opened Time
  import opened Schedules
  import opened Scheduled
  import opened Scheduling

  /** Some pending entry runs task `t`. */
  ghost predicate HasTask(m: multiset<ScheduledTask>, t: Task)
  {
    exists e :: e in m && e.task == t
  }

  /** Every pending entry is dropped after it fires. */
  ghost predicate AllOnce(m: multiset<ScheduledTask>)
  {
    forall e :: e in m ==> e.task.schedule.IsOnce()
  }

  /** The number of passes of `trace` that fired an entry. */
  function Fires(trace: seq<StepOutcome>): nat
  {
    if trace == [] then 0
    else Fires(trace[..|trace| - 1]) + (if trace[|trace| - 1].Fired? then 1 else 0)
  }

  /** The number of passes of `trace` that fired the entry `e`. */
  function FiresOf(trace: seq<StepOutcome>, e: ScheduledTask): nat
  {
    if trace == [] then 0
    else FiresOf(trace[..|trace| - 1], e) + (if trace[|trace| - 1] == Fired(e) then 1 else 0)
  }

  /** The `i`-th pass of an execution. */
  lemma PassOf(states: seq<multiset<ScheduledTask>>, clock: seq<Stbi>, trace: seq<StepOutcome>, i: nat)
    requires Execution(states, clock, trace)
    requires i < |trace|
    ensures StepRel(states[i], clock[i], trace[i], states[i + 1])
  {
  }

  /** The entries created from a batch of tasks: one per task, each due at the
      single baseline plus its own wait. */
  lemma FirstDueSharedBaseline(tasks: seq<Task>, baseline: Stbi)
    ensures |multiset(FirstDue(tasks, baseline))| == |tasks|
    ensures forall e :: e in multiset(FirstDue(tasks, baseline)) ==>
              e.task in tasks && e.at.instant == baseline.instant + e.task.schedule.AsDuration()
    ensures forall t :: t in tasks ==> HasTask(multiset(FirstDue(tasks, baseline)), t)
  {
    var q := FirstDue(tasks, baseline);
    forall t | t in tasks
      ensures HasTask(multiset(q), t)
    {
      var i :| 0 <= i < |tasks| && tasks[i] == t;
      assert q[i] in multiset(q);
    }
  }

  /** A pass returns exactly when the queue is empty, fires exactly when some
      entry is due, and otherwise sleeps for exactly the time until the
      earliest due time. */
  lemma StepDecides(before: multiset<ScheduledTask>, now: Stbi, o: StepOutcome,
                    after: multiset<ScheduledTask>)
    requires StepRel(before, now, o, after)
    ensures o.Finished? <==> before == multiset{}
    ensures o.Fired? <==> exists e :: e in before && e.at.instant <= now.instant
    ensures o.Slept? ==> forall e :: e in before ==> now.instant + o.wait <= e.at.instant
    ensures o.Slept? ==> exists e :: e in before && e.at.instant == now.instant + o.wait
  {
    if o.Slept? {
      var e :| IsEarliest(e, before) && e.at.instant == now.instant + o.wait;
      assert e in before;
    }
  }

  /** A pass that fires a `Once` entry shrinks the queue by one; every other
      pass keeps its size. Every entry other than the fired one stays. */
  lemma StepSize(before: multiset<ScheduledTask>, now: Stbi, o: StepOutcome,
                 after: multiset<ScheduledTask>)
    requires StepRel(before, now, o, after)
    ensures |after| == if o.Fired? && o.entry.task.schedule.IsOnce() then |before| - 1 else |before|
    ensures o.Fired? ==> before - multiset{o.entry} <= after
    ensures !o.Fired? ==> after == before
  {
    if o.Fired? {
      assert o.entry in before;
      assert |before - multiset{o.entry}| == |before| - 1;
    }
  }

  /** A task on an `Every` schedule is still pending after any pass, so the
      queue is never empty while it holds one. */
  lemma EveryStays(before: multiset<ScheduledTask>, now: Stbi, o: StepOutcome,
                   after: multiset<ScheduledTask>, t: Task)
    requires StepRel(before, now, o, after)
    requires t.schedule.Every? && HasTask(before, t)
    ensures HasTask(after, t)
    ensures !o.Finished?
  {
    var x :| x in before && x.task == t;
    if o.Fired? {
      if x == o.entry {
        var n := Requeued(x, now).value;
        assert n in after && n.task == t;
      } else {
        assert x in before - multiset{o.entry};
        assert x in after;
      }
    } else {
      assert x in after;
    }
  }

  /** In a queue of `Once` entries a pass never adds anything. */
  lemma OnceOnlyStep(before: multiset<ScheduledTask>, now: Stbi, o: StepOutcome,
                     after: multiset<ScheduledTask>)
    requires StepRel(before, now, o, after)
    requires AllOnce(before)
    ensures after <= before
    ensures o.Fired? ==> |after| == |before| - 1
  {
    StepSize(before, now, o, after);
  }

  /** However long it runs, a scheduler holding an `Every` task never returns:
      the task is pending before every pass. */
  lemma {:induction false} EveryNeverFinishes(states: seq<multiset<ScheduledTask>>, clock: seq<Stbi>,
                                              trace: seq<StepOutcome>, t: Task, i: nat)
    requires Execution(states, clock, trace)
    requires t.schedule.Every? && HasTask(states[0], t)
    requires i <= |trace|
    ensures HasTask(states[i], t)
    ensures i < |trace| ==> !trace[i].Finished?
  {
    if i > 0 {
      EveryNeverFinishes(states, clock, trace, t, i - 1);
      PassOf(states, clock, trace, i - 1);
      EveryStays(states[i - 1], clock[i - 1], trace[i - 1], states[i], t);
    }
    if i < |trace| {
      PassOf(states, clock, trace, i);
      EveryStays(states[i], clock[i], trace[i], states[i + 1], t);
    }
  }

  /** In a run over `Once` entries, each fired pass removes one entry and
      nothing is ever added, so at most the initial number of entries fire. */
  lemma {:induction false} OnceOnlyRunsDown(states: seq<multiset<ScheduledTask>>, clock: seq<Stbi>,
                                            trace: seq<StepOutcome>, i: nat)
    requires Execution(states, clock, trace)
    requires AllOnce(states[0])
    requires i <= |trace|
    ensures states[i] <= states[0]
    ensures |states[i]| + Fires(trace[..i]) == |states[0]|
  {
    if i > 0 {
      OnceOnlyRunsDown(states, clock, trace, i - 1);
      OnceOnlyStep(states[i - 1], clock[i - 1], trace[i - 1], states[i]);
      assert trace[..i][..i - 1] == trace[..i - 1];
    }
  }

  /** One pass fires a `Once` entry at most once and never brings it back:
      its count in the queue drops by one when it fires and stays otherwise,
      whatever else the queue holds. */
  lemma OnceStepCount(before: multiset<ScheduledTask>, now: Stbi, o: StepOutcome,
                      after: multiset<ScheduledTask>, e: ScheduledTask)
    requires StepRel(before, now, o, after)
    requires e.task.schedule.IsOnce()
    ensures after[e] + (if o == Fired(e) then 1 else 0) == before[e]
  {
    if o.Fired? {
      var n := Requeued(o.entry, now);
      assert n.Some? ==> n.value.task.schedule.Every?;
      assert o.entry in before;
    }
  }

  /** A `Once` entry fires at most as often as it was queued, in any run and
      next to any other tasks: its pending count plus its firings so far is
      its initial count. */
  lemma {:induction false} OnceFiresAtMostOnce(states: seq<multiset<ScheduledTask>>, clock: seq<Stbi>,
                                               trace: seq<StepOutcome>, e: ScheduledTask, i: nat)
    requires Execution(states, clock, trace)
    requires e.task.schedule.IsOnce()
    requires i <= |trace|
    ensures states[i][e] + FiresOf(trace[..i], e) == states[0][e]
  {
    if i > 0 {
      OnceFiresAtMostOnce(states, clock, trace, e, i - 1);
      PassOf(states, clock, trace, i - 1);
      OnceStepCount(states[i - 1], clock[i - 1], trace[i - 1], states[i], e);
      assert trace[..i][..i - 1] == trace[..i - 1];
    }
  }

  /** If every clock reading is at or past every initial due time, a run over
      `Once` entries fires on each pass until the queue is empty, and the pass
      after that returns. */
  lemma {:induction false} OnceOnlyOverdueDrains(states: seq<multiset<ScheduledTask>>, clock: seq<Stbi>,
                                                 trace: seq<StepOutcome>, i: nat)
    requires Execution(states, clock, trace)
    requires AllOnce(states[0])
    requires forall j, e :: 0 <= j < |clock| && e in states[0] ==> e.at.instant <= clock[j].instant
    requires i <= |trace| && i <= |states[0]|
    ensures states[i] <= states[0]
    ensures |states[i]| == |states[0]| - i
    ensures i == |states[0]| && i < |trace| ==> trace[i] == Finished
  {
    if i > 0 {
      OnceOnlyOverdueDrains(states, clock, trace, i - 1);
      var before := states[i - 1];
      OnceOnlyStep(before, clock[i - 1], trace[i - 1], states[i]);
      var e :| e in before;
      assert e in states[0];
      StepDecides(before, clock[i - 1], trace[i - 1], states[i]);
    }
    if i == |states[0]| && i < |trace| {
      StepDecides(states[i], clock[i], trace[i], states[i + 1]);
    }
  }

  /** Every sleep lasts as long as it says: the reading after a pass that
      slept for `wait` is at least the previous reading plus `wait`, which is
      what `std::thread::sleep` supplies between two readings of the clock. */
  ghost predicate SleepsHonoured(clock: seq<Stbi>, trace: seq<StepOutcome>)
  {
    forall i :: 0 <= i < |trace| && i + 1 < |clock| && trace[i].Slept? ==>
      clock[i].instant + trace[i].wait <= clock[i + 1].instant
  }

  /** A pass that slept until the earliest due time is followed by a pass
      that fires, when the sleep was honoured. */
  lemma SleptThenFires(states: seq<multiset<ScheduledTask>>, clock: seq<Stbi>,
                       trace: seq<StepOutcome>, i: nat)
    requires Execution(states, clock, trace)
    requires SleepsHonoured(clock, trace)
    requires i + 1 < |trace| && trace[i].Slept?
    ensures trace[i + 1].Fired?
  {
    PassOf(states, clock, trace, i);
    var e :| IsEarliest(e, states[i]) && e.at.instant == clock[i].instant + trace[i].wait;
    assert e in states[i + 1];
    PassOf(states, clock, trace, i + 1);
    StepDecides(states[i + 1], clock[i + 1], trace[i + 1], states[i + 2]);
  }

  /** Until a pass returns, sleeps and firings alternate at worst: the first
      `k` passes hold at most one sleep more than firings, and a sleep is
      never followed by another. */
  lemma {:induction false} PassesBoundedByFires(states: seq<multiset<ScheduledTask>>, clock: seq<Stbi>,
                                                trace: seq<StepOutcome>, k: nat)
    requires Execution(states, clock, trace)
    requires SleepsHonoured(clock, trace)
    requires k <= |trace|
    requires forall j :: 0 <= j < k ==> !trace[j].Finished?
    ensures k <= 2 * Fires(trace[..k]) + (if k > 0 && trace[k - 1].Slept? then 1 else 0)
  {
    if k > 0 {
      PassesBoundedByFires(states, clock, trace, k - 1);
      assert trace[..k][..k - 1] == trace[..k - 1];
      if trace[k - 1].Slept? && k >= 2 && trace[k - 2].Slept? {
        SleptThenFires(states, clock, trace, k - 2);
      }
    }
  }

  /** A scheduler holding only `Once` entries returns: with honoured sleeps,
      one of its first `2 * n + 2` passes finds the queue empty, where `n` is
      the initial number of entries. Each entry fires once, and at most one
      sleep comes before each firing. */
  lemma OnceOnlyTerminates(states: seq<multiset<ScheduledTask>>, clock: seq<Stbi>,
                           trace: seq<StepOutcome>)
    requires Execution(states, clock, trace)
    requires AllOnce(states[0])
    requires SleepsHonoured(clock, trace)
    requires 2 * |states[0]| + 2 <= |trace|
    ensures exists i :: 0 <= i < 2 * |states[0]| + 2 && trace[i] == Finished
  {
    var k := 2 * |states[0]| + 2;
    if forall j :: 0 <= j < k ==> !trace[j].Finished? {
      PassesBoundedByFires(states, clock, trace, k);
      OnceOnlyRunsDown(states, clock, trace, k);
      assert false;
    }
  }

  /** With a single `Once` entry pending, a pass fires it if it is due and
      otherwise sleeps exactly until it is. */
  lemma SingleOnceStep(e: ScheduledTask, now: Stbi, o: StepOutcome, after: multiset<ScheduledTask>)
    requires e.task.schedule.IsOnce()
    requires StepRel(multiset{e}, now, o, after)
    ensures e.at.instant <= now.instant ==> o == Fired(e) && after == multiset{}
    ensures now.instant < e.at.instant ==> o == Slept(e.at.instant - now.instant) && after == multiset{e}
  {
    if o.Slept? {
      var x :| IsEarliest(x, multiset{e}) && x.at.instant == now.instant + o.wait;
      assert x == e;
    }
  }

  /** With one entry due now and one due later pending, a pass fires the
      due one. */
  lemma PairStep(later: ScheduledTask, due: ScheduledTask, now: Stbi, o: StepOutcome,
                 after: multiset<ScheduledTask>)
    requires due.task.schedule.IsOnce()
    requires due.at.instant <= now.instant < later.at.instant
    requires StepRel(multiset{later, due}, now, o, after)
    ensures o == Fired(due) && after == multiset{later}
  {
    var e := o.entry;
    assert e in multiset{later, due};
    assert e == due;
    assert multiset{later, due} - multiset{due} == multiset{later};
  }

  /** The entries queued for a batch of two tasks. */
  lemma FirstDueOfTwo(t1: Task, t2: Task, baseline: Stbi)
    ensures multiset(FirstDue([t1, t2], baseline))
         == multiset{ScheduledTask(baseline.Add(t1.schedule.AsDuration()), t1),
                     ScheduledTask(baseline.Add(t2.schedule.AsDuration()), t2)}
  {
    assert FirstDue([t1, t2], baseline)
        == [ScheduledTask(baseline.Add(t1.schedule.AsDuration()), t1),
            ScheduledTask(baseline.Add(t2.schedule.AsDuration()), t2)];
  }

  /** A task delayed by `d` and an immediate task, handed to `with_tasks`
      with the clock at `t0` and then run for four passes with clock readings
      `t0, t0, t0 + d, t0 + d`: the immediate task fires first, the loop then
      sleeps exactly `d`, the delayed task fires, and the loop returns. */
  method ImmediateThenDelayed(a: Action, b: Action, d: Duration, t0: Stbi) returns (trace: seq<StepOutcome>)
    requires d != ZERO
    ensures trace == [Fired(ScheduledTask(t0, Task.Once(b))), Slept(d),
                      Fired(ScheduledTask(t0.Add(d), Task.Offset(d, a))), Finished]
  {
    var delayed := ScheduledTask(t0.Add(d), Task.Offset(d, a));
    var immediate := ScheduledTask(t0, Task.Once(b));
    var scheduler := new Scheduler.WithTasks([Task.Offset(d, a), Task.Once(b)], t0);
    FirstDueOfTwo(Task.Offset(d, a), Task.Once(b), t0);
    var o0 := scheduler.Step(t0);
    PairStep(delayed, immediate, t0, o0, scheduler.Pending());
    var o1 := scheduler.Step(t0);
    SingleOnceStep(delayed, t0, o1, scheduler.Pending());
    var o2 := scheduler.Step(t0.Add(d));
    SingleOnceStep(delayed, t0.Add(d), o2, scheduler.Pending());
    var o3 := scheduler.Step(t0.Add(d));
    trace := [o0, o1, o2, o3];
  }
}
