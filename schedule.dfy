/** Firing policies and tasks.

    A `Schedule` says how long to wait before a task fires and whether it
    comes back after firing; a `Task` binds a schedule to an action. The
    action, a boxed `FnMut()` in the library, is modelled by an opaque
    identifier that the scheduler records each time it invokes it. */
module Schedules {
  import opened Optional
  import opened Time

  /** Identifies the callable a task invokes. */
  type Action = nat

  datatype Schedule =
    | Once(delay: Option<Duration>)
    | Every(interval: Duration)
  {
    /** True when the task is dropped after it fires. */
    predicate IsOnce()
    {
      Once?
    }

    /** The wait before a firing: the delay of a `Once` (zero when absent),
        the interval of an `Every`. */
    function AsDuration(): (d: Duration)
      ensures Once? && delay == None ==> d == ZERO
      ensures Once? && delay.Some? ==> d == delay.value
      ensures Every? ==> d == interval
    {
      match this
      case Once(delay) => delay.UnwrapOr(ZERO)
      case Every(d) => d
    }

    /** Binds this schedule to an action. */
    function With(f: Action): (t: Task)
      ensures t.schedule == this && t.f == f
    {
      Task(this, f)
    }

    /** Binds this schedule to an already boxed action. */
    function WithBoxed(f: Action): (t: Task)
      ensures t.schedule == this && t.f == f
    {
      Task(this, f)
    }
  }

  /** A schedule together with the action it fires. */
  datatype Task = Task(schedule: Schedule, f: Action)
  {
    /** Fires `f` once, without waiting. */
    static function Once(f: Action): (t: Task)
      ensures t.schedule.IsOnce() && t.schedule.AsDuration() == ZERO
      ensures t.f == f
    {
      Schedule.Once(None).With(f)
    }

    static function OnceBoxed(f: Action): (t: Task)
      ensures t.schedule.IsOnce() && t.schedule.AsDuration() == ZERO
      ensures t.f == f
    {
      Schedule.Once(None).WithBoxed(f)
    }

    /** Fires `f` once, `duration` after the scheduler's baseline. */
    static function Offset(duration: Duration, f: Action): (t: Task)
      ensures t.schedule.IsOnce() && t.schedule.AsDuration() == duration
      ensures t.f == f
    {
      Schedule.Once(Some(duration)).With(f)
    }

    static function OffsetBoxed(duration: Duration, f: Action): (t: Task)
      ensures t.schedule.IsOnce() && t.schedule.AsDuration() == duration
      ensures t.f == f
    {
      Schedule.Once(Some(duration)).WithBoxed(f)
    }

    /** Fires `f` repeatedly, waiting `duration` before each firing. */
    static function Every(duration: Duration, f: Action): (t: Task)
      ensures !t.schedule.IsOnce() && t.schedule.AsDuration() == duration
      ensures t.f == f
    {
      Schedule.Every(duration).With(f)
    }

    static function EveryBoxed(duration: Duration, f: Action): (t: Task)
      ensures !t.schedule.IsOnce() && t.schedule.AsDuration() == duration
      ensures t.f == f
    {
      Schedule.Every(duration).WithBoxed(f)
    }
  }
}
