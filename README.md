# casched: a model of a single-threaded due-time scheduler

This project is a Dafny model of `src/lib.rs` from casched, a small in-process scheduler.
Callers build `Task`s. A task binds a `Schedule` to an action:
- `Once(None)` fires immediately;
- `Once(Some(d))` fires once after `d`;
- `Every(d)` fires every `d`.

`Scheduler::with_tasks` reads the clock once and queues every task at that baseline plus its schedule's wait.
`Scheduler::run` then loops. Each pass reads the clock and peeks at the earliest entry. It then does one of three things:
- returns, if the queue is empty;
- pops the entry, invokes it and requeues it if it is an `Every`, if the entry is due;
- otherwise sleeps until the entry is due.

The queue is a max-heap keyed on `Stbi`, a timestamp whose ordering is reversed, so the heap hands out the earliest due time first.

How the model is built:
- Time is a natural number of ticks. `Stbi(instant)` wraps a reading, and a `Duration` is a `nat`.
- An action is an opaque identifier (`Action`). Invoking it is recorded as the outcome `Fired(entry)` of a pass.
- Sleeping is recorded as `Slept(wait)`.
- The clock reading of each pass is a parameter.
- The queue is a class `TaskQueue` over a sequence. It implements a binary heap with sift-up and sift-down, under the reversed order of `ScheduledTask`.
- `Scheduler` holds the queue. `WithTasks` is its constructor. `Step(now)` is one pass of `run`. `Run(clock)` drives `Step` over a finite sequence of clock readings and stops at the first pass that finds the queue empty.
- Every state change of a pass is stated by the relation `StepRel`: pending entries before, clock reading, outcome, pending entries after. `Step` is proved to satisfy it. `Execution` chains passes, and the lemmas in `SchedulerProperties` are proved about those two.

Modules: `Optional` (the `Option` type), `Time` (`Stbi`, `Ordering`), `Schedules` (`Schedule`, `Task`), `Scheduled` (`ScheduledTask`, the requeue rule), `Queue` (the heap), `Scheduling` (`Scheduler`, `StepRel`, `Execution`), `SchedulerProperties` (lemmas about runs).

Two points about what the code does:
- An `Every` task is requeued at `now + interval` (src/lib.rs:185). `now` is the clock reading taken at the start of the pass (src/lib.rs:169), before the action runs. The new due time is not `previous due time + interval`, so a late firing shifts all later firings by the same lateness (`RequeuedCarriesLateness`). Due times therefore drift. They do not stay at `baseline + n * interval`.
- There is no `Counted` schedule. It appears only as a to-do note (src/lib.rs:4).

## Model

| member | source | states |
|---|---|---|
| Time.Stbi.Since | src/lib.rs:23-25 | the wait from `earlier` is zero exactly when this reading is not later; otherwise it is the difference, so `earlier + wait` gives this reading |
| Time.Stbi.Cmp | src/lib.rs:34-38 | reversed chronological order: `Less` exactly when this reading is later, `Greater` exactly when it is earlier, `Equal` exactly when they coincide |
| Time.Stbi.PartialCmp | src/lib.rs:28-32 | `partial_cmp` always answers, and agrees with `cmp` |
| Time.CompareInstants | src/lib.rs:36 | the chronological order of the wrapped readings that `Stbi` reverses |
| Time.Stbi.Add | src/lib.rs:40-46 | adding `d` and measuring back from the start gives `d`; measuring from the later reading saturates to zero; a positive `d` gives a reading that is `Less` in the reversed order |
| Time.CmpIsTotalOrder | src/lib.rs:28-38 | the reversed order is antisymmetric, reflexive only on equal readings, and transitive |
| Optional.Option.UnwrapOr | src/lib.rs:61 | gives the wrapped value when present and the default otherwise |
| Schedules.Schedule.IsOnce | src/lib.rs:55-57 | true exactly for the `Once` variants |
| Schedules.Schedule.AsDuration | src/lib.rs:59-64 | zero for `Once(None)`, the delay for `Once(Some(d))`, the interval for `Every(d)` |
| Schedules.Schedule.With | src/lib.rs:66-74 | the task holds this schedule and the given action unchanged |
| Schedules.Schedule.WithBoxed | src/lib.rs:76-78 | the task holds this schedule and the given boxed action unchanged |
| Schedules.Task.Once | src/lib.rs:89-94 | a task that is dropped after firing, waits zero, and keeps the action |
| Schedules.Task.OnceBoxed | src/lib.rs:96-98 | the same schedule as `once`, for a boxed action |
| Schedules.Task.Offset | src/lib.rs:100-105 | a task that is dropped after firing, waits exactly `duration`, and keeps the action |
| Schedules.Task.OffsetBoxed | src/lib.rs:107-109 | the same schedule as `offset`, for a boxed action |
| Schedules.Task.Every | src/lib.rs:111-116 | a task that comes back after firing, waits exactly `duration`, and keeps the action |
| Schedules.Task.EveryBoxed | src/lib.rs:118-120 | the same schedule as `every`, for a boxed action |
| Scheduled.ScheduledTask.Eq | src/lib.rs:128-132 | two entries are equal exactly when `cmp` calls them `Equal`, i.e. they are due at the same reading |
| Scheduled.ScheduledTask.Cmp | src/lib.rs:142-146 | entries are ordered by due time alone, reversed: the greater entry is the one due earlier |
| Scheduled.ScheduledTask.PartialCmp | src/lib.rs:136-140 | `partial_cmp` agrees with `cmp` |
| Scheduled.OrderIgnoresTask | src/lib.rs:128-146 | replacing the tasks of two entries changes neither their order nor their equality |
| Scheduled.Requeued | src/lib.rs:184-187 | nothing is requeued exactly when the schedule is `Once`; an `Every` entry comes back with the same task, due `interval` after the pass's clock reading |
| Scheduled.RequeuedCarriesLateness | src/lib.rs:169-185 | an `Every` entry fired late is next due at its old due time plus the interval plus its lateness |
| Queue.AboveIsNoLater | src/lib.rs:136-149 | in the max-heap under the reversed order, a parent may sit above a child exactly when it is due no later |
| Queue.RootIsEarliest | src/lib.rs:149 | the root of the heap is due no later than any entry in it |
| Queue.HeapTopIsEarliest | src/lib.rs:149 | the root of a non-empty heap is an earliest entry of its contents |
| Queue.TaskQueue.Peek | src/lib.rs:171-173 | none exactly when the queue is empty; otherwise an entry of the queue that is due no later than any other |
| Queue.TaskQueue.Push | src/lib.rs:161 | the heap order is kept and the contents gain exactly the pushed entry |
| Queue.TaskQueue.Pop | src/lib.rs:179 | removes and returns exactly the entry `Peek` showed, so a successful peek guarantees a successful pop; the heap order is kept |
| Scheduling.Scheduler.WithTasks | src/lib.rs:153-165 | the pending entries are exactly one per task, each due at the single clock reading `now` plus its schedule's wait |
| Scheduling.Scheduler.Step | src/lib.rs:168-190 | one pass of the loop at reading `now` satisfies `StepRel`: return on an empty queue, fire an earliest due entry and requeue it if `Every`, or sleep with the queue unchanged |
| Scheduling.Scheduler.Run | src/lib.rs:167-192 | the passes form an `Execution` from the initial queue; no pass before the last returned; the run stops early only after a pass that found the queue empty, and then nothing is pending |
| SchedulerProperties.FirstDueSharedBaseline | src/lib.rs:153-165 | the initial queue holds one entry per task, every task has an entry, and every entry is due at the shared baseline plus its own wait |
| SchedulerProperties.StepDecides | src/lib.rs:171-190 | a pass returns exactly when the queue is empty, fires exactly when some entry is due at the reading, and otherwise sleeps exactly until the earliest entry is due |
| SchedulerProperties.StepSize | src/lib.rs:177-190 | firing a `Once` entry shrinks the queue by one; any other pass keeps its size; every entry other than the fired one stays |
| SchedulerProperties.EveryStays | src/lib.rs:184-186 | a task on an `Every` schedule is still pending after any pass, and that pass did not return |
| SchedulerProperties.OnceOnlyStep | src/lib.rs:179-187 | in a queue of `Once` entries a pass adds nothing, and a firing pass removes exactly one entry |
| SchedulerProperties.EveryNeverFinishes | src/lib.rs:167-192 | in any execution starting with an `Every` task, the task is pending before every pass and no pass returns |
| SchedulerProperties.OnceOnlyRunsDown | src/lib.rs:167-192 | in an execution over `Once` entries, the queue only loses entries, and its size plus the number of firings so far is its initial size |
| SchedulerProperties.OnceStepCount | src/lib.rs:177-187 | a pass lowers the pending count of a `Once` entry by one exactly when it fires that entry, and otherwise leaves it, whatever else is queued |
| SchedulerProperties.OnceFiresAtMostOnce | src/lib.rs:167-192 | in any run, next to any other tasks, a `Once` entry's pending count plus its firings so far equals its initial count, so an entry queued once fires at most once |
| SchedulerProperties.OnceOnlyOverdueDrains | src/lib.rs:167-192 | over `Once` entries when every clock reading is past every due time, no pass sleeps: pass `i` leaves exactly `n - i` entries, and pass `n` returns |
| SchedulerProperties.SleptThenFires | src/lib.rs:175-190 | when the next reading comes at least `wait` after a pass that slept for `wait`, the next pass fires |
| SchedulerProperties.PassesBoundedByFires | src/lib.rs:167-192 | with honoured sleeps and no pass returning yet, the first `k` passes number at most twice the firings, plus one if the last of them slept |
| SchedulerProperties.OnceOnlyTerminates | src/lib.rs:167-192 | with honoured sleeps, a scheduler holding `n` `Once` entries returns within its first `2n + 2` passes |
| SchedulerProperties.SingleOnceStep | src/lib.rs:171-190 | with one `Once` entry pending, a pass fires it if it is due, and otherwise sleeps exactly until it is due |
| SchedulerProperties.PairStep | src/lib.rs:171-187 | with one due and one later entry pending, a pass fires the due one and leaves the later one |
| SchedulerProperties.ImmediateThenDelayed | src/lib.rs:153-192 | a scheduler built from `offset(d)` and `once` at reading `t0`, stepped at `t0, t0, t0 + d, t0 + d`: the immediate task fires first, the loop sleeps exactly `d`, the delayed one fires, and the loop returns |

## Left out

- `Stbi::now` (src/lib.rs:19-21), which reads `Instant::now()`, and its two calls (src/lib.rs:156, 169): the clock is an external source. Its readings are parameters: `now` for `WithTasks` and `Step`, the sequence `clock` for `Run`. The model does not assume the readings are monotonic. Only the termination lemmas assume something about them: `OnceOnlyTerminates` assumes `SleepsHonoured`, i.e. the reading after a sleep of `wait` is at least `wait` later.
- `std::thread::sleep` (src/lib.rs:189): a blocking primitive. The pass returns `Slept(wait)` with the exact wait instead of blocking. What the sleep guarantees about the next reading is the predicate `SleepsHonoured`.
- What the boxed `FnMut` actions do: they are foreign callables with captured state. Each is an opaque `Action` identifier, and an invocation is recorded in the outcome `Fired(entry)`.
- The overflow panic of `Instant + Duration` (src/lib.rs:43-45): readings and durations are unbounded natural numbers.
- The internals of `std::collections::BinaryHeap`: the queue is a binary heap written for this model. It is not a copy of the library's algorithm. Which of several entries with equal due times comes out first is left unspecified, as in the source.
- Scheduling.Scheduler.Run: `run` is an unbounded loop, which never returns while an `Every` task is pending (src/lib.rs:167-192). The model runs one pass per given clock reading, so it captures every finite prefix of a run, not the infinite run itself. `EveryNeverFinishes` covers all such prefixes.
- The move semantics of `run(mut self)`, which consumes the scheduler: in the model a `Scheduler` object can be run again.
- The test `simple_schedule` (src/lib.rs:201-224): it prints and never terminates. Its first two tasks are the situation of `ImmediateThenDelayed`.
- A `Counted` schedule: it does not exist in this file, only as a to-do note (src/lib.rs:4).
