/**
 * The values held in the two job tables, the schedule-time iterators
 * they carry, and what the clock and the iterator libraries answer.
 */
module Jobs {
  import opened Outcomes
  import opened Messages

  /**
   * A schedule-time iterator (an `IntervalIter` or a `croniter`): the
   * whole sequence of times it would yield, and how many it has yielded.
   */
  datatype TimeIter = TimeIter(at: nat -> int, cursor: nat)

  /** `next(iterator)` with its result thrown away: the iterator object moves on. */
  function Advance(it: TimeIter): (r: TimeIter)
    ensures r.at == it.at && r.cursor == it.cursor + 1
  {
    it.(cursor := it.cursor + 1)
  }

  /** An `interval_jobs` value: `[next time, job message, iterator, queue, run_count]`. */
  datatype IntervalJob = IntervalJob(
    next: int, msg: JobMessage, iter: TimeIter, queue: Option<string>, runCount: int)

  /** A `cron_jobs` value: `[next time, job message, iterator, queue]`. */
  datatype CronJob = CronJob(next: int, msg: JobMessage, iter: TimeIter, queue: Option<string>)

  /**
   * What the environment answers at the moment of a call: the wall-clock
   * timestamp `int(timestamp())`, the times `IntervalIter(monotonic(), i)`
   * yields for interval `i`, and the times `croniter(c)` yields for
   * expression `c`.
   */
  datatype Env = Env(ts: int, intervalIter: int -> (nat -> int), cronIter: string -> (nat -> int))

  /** `next` is the time the iterator yielded last. */
  ghost predicate Positioned(next: int, it: TimeIter)
  {
    it.cursor >= 1 && next == it.at(it.cursor - 1)
  }

  ghost predicate Increasing(at: nat -> int)
  {
    forall i: nat, j: nat :: i < j ==> at(i) < at(j)
  }

  /** A fresh interval entry: its next time is the iterator's first time. */
  function NewIntervalJob(times: nat -> int, msg: JobMessage, queue: Option<string>, runCount: int): (j: IntervalJob)
    ensures Positioned(j.next, j.iter) && j.iter.at == times && j.next == times(0)
    ensures j.msg == msg && j.queue == queue && j.runCount == runCount
  {
    IntervalJob(times(0), msg, TimeIter(times, 1), queue, runCount)
  }

  /** Changing a fresh entry's run count is the same as creating it with that count. */
  lemma NewIntervalJobCount(times: nat -> int, msg: JobMessage, queue: Option<string>, runCount: int, n: int)
    ensures NewIntervalJob(times, msg, queue, runCount).(runCount := n) == NewIntervalJob(times, msg, queue, n)
  {
  }

  /**
   * A fresh cron entry: the first time the iterator yields, moved on once
   * more when that time is not after the timestamp `ts`.
   */
  function NewCronJob(times: nat -> int, ts: int, msg: JobMessage, queue: Option<string>): (c: CronJob)
    ensures Positioned(c.next, c.iter) && c.iter.at == times
    ensures ts < times(0) ==> c.next == times(0)
    ensures times(0) <= ts ==> c.next == times(1)
    ensures c.msg == msg && c.queue == queue
  {
    var first := times(0);
    if ts >= first then CronJob(times(1), msg, TimeIter(times, 2), queue)
    else CronJob(first, msg, TimeIter(times, 1), queue)
  }

  /** Every interval entry is filed under the key of its own job message. */
  ghost predicate IntervalKeyed(key: JobMessage -> Hash, entries: map<Hash, IntervalJob>)
  {
    forall h :: h in entries ==> key(entries[h].msg) == h
  }

  /** Every cron entry is filed under the key of its own job message. */
  ghost predicate CronKeyed(key: JobMessage -> Hash, entries: map<Hash, CronJob>)
  {
    forall h :: h in entries ==> key(entries[h].msg) == h
  }
}
