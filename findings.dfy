/**
 * Four places where the scheduler's code does something other than what
 * its comments and surrounding code evidently intend. For each: the code
 * as written (most of it modelled in `Ticking`), an input that shows the
 * difference, and a corrected definition with the intended property
 * proved about it.
 */
module Findings {
  import opened Outcomes
  import opened Headers
  import opened Messages
  import opened Dicts
  import opened Jobs
  import opened Ticking

  /** `n` ticks at the same time. */
  function Repeat(t: int, n: nat): (r: seq<int>)
    ensures |r| == n && forall k :: 0 <= k < n ==> r[k] == t
  {
    if n == 0 then [] else [t] + Repeat(t, n - 1)
  }

  // ---- 1. the interval loop never stores the next time or the decremented run count ----

  /**
   * Requests sent for an entry alone in the interval table over successive
   * ticks at the monotonic times `ticks`, as written: the entry is
   * rewritten by `IntervalAfter` only, and a cancelled entry is gone. With
   * other entries in the table the cancel loop may also delete this one
   * when it is the hash visited last (finding 3), which this count does
   * not follow.
   */
  function RunsAsWritten(j: IntervalJob, ticks: seq<int>): nat
    decreases |ticks|
  {
    if ticks == [] then 0
    else match ActionOf(j, ticks[0])
      case Cancel => 0
      case Wait => RunsAsWritten(j, ticks[1..])
      case _ => 1 + RunsAsWritten(IntervalAfter(j, ticks[0]), ticks[1..])
  }

  /**
   * As written, an entry alone in the interval table that runs once runs
   * on every later tick at the same time, whatever its run count.
   */
  lemma {:induction false} RunsAsWrittenRepeat(j: IntervalJob, mono: int, n: nat)
    requires Runs(ActionOf(j, mono))
    ensures RunsAsWritten(j, Repeat(mono, n)) == n
    decreases n
  {
    if n > 0 {
      var after := IntervalAfter(j, mono);
      assert after.next == j.next && after.runCount == j.runCount;
      assert Repeat(mono, n)[1..] == Repeat(mono, n - 1);
      RunsAsWrittenRepeat(after, mono, n - 1);
    }
  }

  /**
   * The interval entry after a visit as intended: a run stores the next
   * time drawn from the iterator and, for a counted run, the decremented
   * run count.
   */
  function FixedIntervalAfter(j: IntervalJob, mono: int): (r: IntervalJob)
    ensures !Runs(ActionOf(j, mono)) ==> r == j
    ensures Runs(ActionOf(j, mono)) ==> r.next == j.iter.at(j.iter.cursor) && r.iter == Advance(j.iter)
    ensures ActionOf(j, mono).RunCounted? ==> r.runCount == j.runCount - 1
    ensures ActionOf(j, mono).RunForever? ==> r.runCount == INFINITE_RUN_COUNT
    ensures r.msg == j.msg && r.queue == j.queue
  {
    match ActionOf(j, mono)
    case RunForever => j.(next := j.iter.at(j.iter.cursor), iter := Advance(j.iter))
    case RunCounted(remaining) =>
      j.(next := j.iter.at(j.iter.cursor), iter := Advance(j.iter), runCount := remaining)
    case _ => j
  }

  /** Requests sent for one interval entry over successive ticks, as intended. */
  function FixedRuns(j: IntervalJob, ticks: seq<int>): nat
    decreases |ticks|
  {
    if ticks == [] then 0
    else match ActionOf(j, ticks[0])
      case Cancel => 0
      case Wait => FixedRuns(j, ticks[1..])
      case _ => 1 + FixedRuns(FixedIntervalAfter(j, ticks[0]), ticks[1..])
  }

  /** As intended, an entry with run count n >= 0 is sent at most n times, over any ticks. */
  lemma {:induction false} FixedRunsBounded(j: IntervalJob, ticks: seq<int>)
    requires j.runCount >= 0
    ensures FixedRuns(j, ticks) <= j.runCount
    decreases |ticks|
  {
    if ticks != [] {
      match ActionOf(j, ticks[0])
      case Cancel =>
      case Wait => FixedRunsBounded(j, ticks[1..]);
      case RunForever =>
      case RunCounted(_) => FixedRunsBounded(FixedIntervalAfter(j, ticks[0]), ticks[1..]);
    }
  }

  /** As intended, a run moves the entry's next time strictly forward along an increasing schedule. */
  lemma FixedIntervalAdvances(j: IntervalJob, mono: int)
    requires Positioned(j.next, j.iter) && Increasing(j.iter.at)
    requires Runs(ActionOf(j, mono))
    ensures Positioned(FixedIntervalAfter(j, mono).next, FixedIntervalAfter(j, mono).iter)
    ensures FixedIntervalAfter(j, mono).next > j.next
  {
    assert j.iter.at(j.iter.cursor - 1) < j.iter.at(j.iter.cursor);
  }

  /**
   * A due entry with run count 1, alone in the interval table and ticked
   * twice at the same time: as written it is sent twice, as intended at
   * most once.
   */
  lemma IntervalOverrun(j: IntervalJob, mono: int)
    requires j.next <= mono && j.runCount == 1
    ensures RunsAsWritten(j, Repeat(mono, 2)) == 2
    ensures FixedRuns(j, Repeat(mono, 2)) <= 1
  {
    RunsAsWrittenRepeat(j, mono, 2);
    FixedRunsBounded(j, Repeat(mono, 2));
  }

  // ---- 2. the cron loop never stores the next time ----

  /** As written, a cron entry that fired fires again at every later timestamp. */
  lemma CronRefires(c: CronJob, ts: int, later: int)
    requires c.next <= ts <= later
    ensures CronFired(CronAfter(c, ts), later) == CronFired(c, ts) == [Request(c.msg, c.queue)]
  {
  }

  /** The cron entry after the loop as intended: a due entry stores the next time its iterator yields. */
  function FixedCronAfter(c: CronJob, ts: int): (r: CronJob)
    ensures c.next <= ts ==> r.next == c.iter.at(c.iter.cursor) && r.iter == Advance(c.iter)
    ensures ts < c.next ==> r == c
    ensures r.msg == c.msg && r.queue == c.queue
  {
    if c.next <= ts then c.(next := c.iter.at(c.iter.cursor), iter := Advance(c.iter)) else c
  }

  /** As intended, firing moves the entry to a strictly later time of its schedule. */
  lemma FixedCronAdvances(c: CronJob, ts: int)
    requires Positioned(c.next, c.iter) && Increasing(c.iter.at)
    requires c.next <= ts
    ensures Positioned(FixedCronAfter(c, ts).next, FixedCronAfter(c, ts).iter)
    ensures FixedCronAfter(c, ts).next > c.next
  {
    assert c.iter.at(c.iter.cursor - 1) < c.iter.at(c.iter.cursor);
  }

  /** As intended, a fired entry does not fire again at a later timestamp before its next scheduled time. */
  lemma FixedCronWaits(c: CronJob, ts: int, later: int)
    requires c.next <= ts <= later < c.iter.at(c.iter.cursor)
    ensures CronFired(FixedCronAfter(c, ts), later) == []
  {
  }

  // ---- 3. the cancel loop deletes the hash visited last ----

  /**
   * The cancel loop as intended: each queued hash is removed from the
   * store, the index list and the table; `del` raises KeyError for a hash
   * no longer in the table.
   */
  function FixedCancel(d: Dict<IntervalJob>, store: map<Hash, ScheduleMessage>, index: seq<Hash>,
                       cancel: seq<Hash>): (r: CancelState)
    ensures Valid(d) ==> Valid(r.interval)
    ensures r.outcome.Failed? ==> r.outcome.error == KeyError
    decreases |cancel|
  {
    if cancel == [] then CancelState(d, store, index, Done)
    else
      var job := cancel[0];
      if job !in d.entries then CancelState(d, store - {job}, Without(index, job), Failed(KeyError))
      else FixedCancel(Pop(d, job), store - {job}, Without(index, job), cancel[1..])
  }

  /**
   * Distinct queued hashes of the table are removed from the table, the
   * store and the index list, nothing else is, and nothing raises.
   */
  lemma {:induction false} FixedCancelRemovesQueued(d: Dict<IntervalJob>, store: map<Hash, ScheduleMessage>,
                                                    index: seq<Hash>, cancel: seq<Hash>)
    requires NoDups(cancel) && forall k :: k in cancel ==> k in d.entries
    ensures FixedCancel(d, store, index, cancel).outcome == Done
    ensures forall h :: h in FixedCancel(d, store, index, cancel).interval.entries <==> h in d.entries && h !in cancel
    ensures forall h :: h in FixedCancel(d, store, index, cancel).interval.entries ==>
              FixedCancel(d, store, index, cancel).interval.entries[h] == d.entries[h]
    ensures FixedCancel(d, store, index, cancel).store == map h | h in store && h !in cancel :: store[h]
    ensures forall h :: h in FixedCancel(d, store, index, cancel).index <==> h in index && h !in cancel
    decreases |cancel|
  {
    if cancel != [] {
      var job := cancel[0];
      assert NoDups(cancel[1..]);
      assert job !in cancel[1..];
      FixedCancelRemovesQueued(Pop(d, job), store - {job}, Without(index, job), cancel[1..]);
      assert forall h :: h in cancel <==> h == job || h in cancel[1..];
    }
  }

  /** The queue built by the interval loop over a duplicate-free order has no duplicates. */
  lemma {:induction false} CancelListNoDups(entries: map<Hash, IntervalJob>, keys: seq<Hash>, mono: int)
    requires forall k :: k in keys ==> k in entries
    requires NoDups(keys)
    ensures NoDups(CancelList(entries, keys, mono))
    decreases |keys|
  {
    if keys != [] {
      var init := keys[..|keys| - 1];
      var last := keys[|keys| - 1];
      assert NoDups(init);
      CancelListNoDups(entries, init, mono);
      CancelListExactly(entries, init, mono);
      NoDupsPrefix(keys, |keys| - 1);
      assert last !in CancelList(entries, init, mono);
    }
  }

  /**
   * After an interval pass, the intended cancel loop removes exactly the
   * entries that were due with a run count <= 0 other than -1, and raises
   * nothing.
   */
  lemma FixedCancelAfterPass(d: Dict<IntervalJob>, store: map<Hash, ScheduleMessage>, index: seq<Hash>, mono: int)
    requires Valid(d)
    ensures FixedCancel(d, store, index, CancelList(d.entries, d.order, mono)).outcome == Done
    ensures forall h :: h in FixedCancel(d, store, index, CancelList(d.entries, d.order, mono)).interval.entries
              <==> h in d.entries && ActionOf(d.entries[h], mono) != Cancel
  {
    CancelListNoDups(d.entries, d.order, mono);
    CancelListExactly(d.entries, d.order, mono);
    FixedCancelRemovesQueued(d, store, index, CancelList(d.entries, d.order, mono));
  }

  /**
   * A table visited in the order `a`, `b`, where `a` is due with run
   * count 0 and `b` is not due: the loop queues `a`, but as written the
   * cancel loop deletes `b` and keeps `a`; as intended it deletes `a` and
   * keeps `b`. Queuing both raises KeyError as written.
   */
  lemma CancelDeletesWrongJob(a: IntervalJob, b: IntervalJob, store: map<Hash, ScheduleMessage>,
                              index: seq<Hash>, mono: int)
    requires a.next <= mono && a.runCount == 0
    requires mono < b.next
    ensures var d := Dict(["a", "b"], map["a" := a, "b" := b]);
            var cancel := CancelList(d.entries, d.order, mono);
            var r := CancelAsWritten(d, store, index, cancel, d.order[|d.order| - 1]);
            cancel == ["a"] && "a" in r.interval.entries && "b" !in r.interval.entries
    ensures var d := Dict(["a", "b"], map["a" := a, "b" := b]);
            var r := FixedCancel(d, store, index, CancelList(d.entries, d.order, mono));
            "a" !in r.interval.entries && "b" in r.interval.entries
    ensures var d := Dict(["a", "b"], map["a" := a, "b" := a]);
            CancelAsWritten(d, store, index, ["a", "b"], "b").outcome == Failed(KeyError)
  {
    var d := Dict(["a", "b"], map["a" := a, "b" := b]);
    assert d.order[..1] == ["a"] && d.order[..0] == [];
    assert CancelList(d.entries, d.order, mono) == ["a"];
  }

  // ---- 4. the administrative guard checks five frames but reads the sixth ----

  /**
   * Whether an administrative message gets the scheduled-jobs reply, as
   * written: the guard lets a five-frame STATUS message through, and
   * reading its sixth frame raises IndexError. The two command constants
   * are parameters.
   */
  function AdminRepliesAsWritten(msg: seq<string>, statusCmd: string, showJobs: string): (r: Result<bool>)
    ensures r.Raised? ==> r.error == IndexError && |msg| == 5
    ensures r == Ok(true) ==> |msg| >= 6 && msg[3] == statusCmd && msg[5] == showJobs
  {
    if |msg| > 4 then
      if msg[3] == statusCmd then
        if |msg| > 5 then Ok(msg[5] == showJobs) else Raised(IndexError)
      else Ok(false)
    else Ok(false)
  }

  /** As written, the check raises exactly on a five-frame STATUS message. */
  lemma AdminGuardRaises(msg: seq<string>, statusCmd: string, showJobs: string)
    ensures AdminRepliesAsWritten(msg, statusCmd, showJobs).Raised? <==> |msg| == 5 && msg[3] == statusCmd
  {
  }

  /**
   * The check as intended: the guard asks for the six frames it reads. A
   * five-frame STATUS message gets no reply instead of an exception, and
   * wherever the written check does not raise the two agree.
   */
  function AdminReplies(msg: seq<string>, statusCmd: string, showJobs: string): (r: bool)
    ensures |msg| == 5 && msg[3] == statusCmd ==> !r
    ensures AdminRepliesAsWritten(msg, statusCmd, showJobs).Ok? ==>
              r == AdminRepliesAsWritten(msg, statusCmd, showJobs).value
  {
    if |msg| > 5 then
      if msg[3] == statusCmd then msg[5] == showJobs else false
    else false
  }
}
