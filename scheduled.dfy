/** A task together with its due time: the element of the scheduler's queue.
    Its equality and ordering look only at the due time. */
module Scheduled {
  import opened Optional
  import opened Time
  import opened Schedules

  datatype ScheduledTask = ScheduledTask(at: Stbi, task: Task)
  {
    /** `eq`: two entries are equal when they are due at the same reading. */
    predicate Eq(other: ScheduledTask)
      ensures Eq(other) <==> Cmp(other) == Equal
    {
      at == other.at
    }

    /** `cmp`: the reversed order of the due times, so the greatest entry is
        the one due first. */
    function Cmp(other: ScheduledTask): (o: Ordering)
      ensures o == Greater <==> at.instant < other.at.instant
      ensures o == Equal <==> at.instant == other.at.instant
      ensures o == Less <==> at.instant > other.at.instant
    {
      at.Cmp(other.at)
    }

    function PartialCmp(other: ScheduledTask): (o: Option<Ordering>)
      ensures o == Some(Cmp(other))
    {
      at.PartialCmp(other.at)
    }
  }

  /** The order between two entries does not depend on their tasks. */
  lemma OrderIgnoresTask(a: ScheduledTask, b: ScheduledTask, t: Task, u: Task)
    ensures a.(task := t).Cmp(b.(task := u)) == a.Cmp(b)
    ensures a.(task := t).Eq(b.(task := u)) == a.Eq(b)
  {
  }

  /** `e` is due no later than every entry of `m`, and is one of them. */
  ghost predicate IsEarliest(e: ScheduledTask, m: multiset<ScheduledTask>)
  {
    e in m && forall x :: x in m ==> e.at.instant <= x.at.instant
  }

  /** What the run loop pushes back after firing `e` at clock reading `now`:
      nothing for a `Once` task, the same task due `now + interval` for an
      `Every` task. */
  function Requeued(e: ScheduledTask, now: Stbi): (r: Option<ScheduledTask>)
    ensures r == None <==> e.task.schedule.IsOnce()
    ensures r.Some? ==> r.value.task == e.task
    ensures r.Some? ==> r.value.at.Since(now) == e.task.schedule.interval
    ensures r.Some? ==> r.value.at.instant >= now.instant
  {
    if e.task.schedule.IsOnce() then None
    else Some(e.(at := now.Add(e.task.schedule.AsDuration())))
  }

  /** The next due time is measured from the clock reading, not from the
      previous due time: a late firing pushes every later firing back by the
      same lateness. */
  lemma RequeuedCarriesLateness(e: ScheduledTask, now: Stbi)
    requires e.task.schedule.Every?
    requires e.at.instant <= now.instant
    ensures Requeued(e, now).Some?
    ensures Requeued(e, now).value.at.instant
         == e.at.instant + e.task.schedule.interval + now.Since(e.at)
  {
  }
}
