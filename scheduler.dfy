/**
 * The scheduler's job-table state and the operations that change it:
 * start-up restore, SCHEDULE, UNSCHEDULE and one pass of the event loop.
 *
 * The Redis store is a map from job hash to the stored request plus the
 * `'interval_jobs'` index list; requests sent to the broker are appended
 * to a ghost log.
 */
module Scheduling {
  import opened Outcomes
  import opened Text
  import opened Headers
  import opened Messages
  import opened Dicts
  import opened Jobs
  import opened Restoring
  import opened Ticking

  /** The header text that switches haste mode off. */
  const NOHASTE: string := "nohaste"

  /** The cron loop over a table: the table afterwards and the requests sent, in order. */
  method CronPass(table0: Dict<CronJob>, ts: int) returns (table: Dict<CronJob>, fired: seq<Request>)
    requires Valid(table0)
    ensures table == Dict(table0.order, CronAfterAll(table0.entries, ts))
    ensures fired == CronSends(table0.entries, table0.order, ts)
  {
    table := table0;
    fired := [];
    var order := table.order;
    var i := 0;
    while i < |order|
      invariant 0 <= i <= |order|
      invariant table.order == order && table.entries == CronAfterOn(table0.entries, order[..i], ts)
      invariant fired == CronSends(table0.entries, order[..i], ts)
    {
      var h := order[i];
      CronVisit(table0.entries, order, i, ts);
      var cron := table.entries[h];
      if cron.next <= ts {
        fired := fired + [Request(cron.msg, cron.queue)];
        // next(interval_iterator): the iterator moves on, cron[0] is not updated
        table := Put(table, h, cron.(iter := Advance(cron.iter)));
      }
      i := i + 1;
    }
    assert order[..i] == order;
    CronAfterOnAll(table0.entries, order, ts);
  }

  /**
   * The body of the interval loop for one entry: the entry afterwards, the
   * store afterwards, the requests sent and the hashes queued for
   * cancellation.
   */
  method VisitIntervalJob(jobHash: Hash, job: IntervalJob, store0: map<Hash, ScheduleMessage>, mono: int)
    returns (after: IntervalJob, store: map<Hash, ScheduleMessage>, fired: seq<Request>, queued: seq<Hash>)
    ensures after == IntervalAfter(job, mono)
    ensures fired == IntervalFired(job, mono)
    ensures queued == if ActionOf(job, mono) == Cancel then [jobHash] else []
    ensures store == if jobHash in store0 then store0[jobHash := PersistOne(store0[jobHash], job, mono)] else store0
  {
    after, store, fired, queued := job, store0, [], [];
    assert jobHash in store0 ==> store0[jobHash := store0[jobHash]] == store0;
    if job.next <= mono {
      if job.runCount != INFINITE_RUN_COUNT {
        if job.runCount <= 0 {
          queued := [jobHash];
        } else {
          // the decremented count goes to the store only, job[4] is not updated
          var runCount := job.runCount - 1;
          if jobHash in store {
            var message := store[jobHash];
            var newHeaders := RewriteRunCount(message.headers, runCount);
            store := store[jobHash := message.(headers := newHeaders)];
          }
          fired := [Request(job.msg, job.queue)];
          after := job.(iter := Advance(job.iter));
        }
      } else {
        fired := [Request(job.msg, job.queue)];
        after := job.(iter := Advance(job.iter));
      }
    }
  }

  /** The loop state of the interval pass once the first `i` hashes of `table0`'s order have been visited. */
  ghost predicate IntervalVisited(table0: Dict<IntervalJob>, store0: map<Hash, ScheduleMessage>, mono: int, i: nat,
                                  table: Dict<IntervalJob>, store: map<Hash, ScheduleMessage>, fired: seq<Request>,
                                  cancel: seq<Hash>)
    requires Valid(table0) && i <= |table0.order|
  {
    var visited := table0.order[..i];
    && table == Dict(table0.order, IntervalAfterOn(table0.entries, visited, mono))
    && store == PersistOn(store0, table0.entries, visited, mono)
    && fired == IntervalSends(table0.entries, visited, mono)
    && cancel == CancelList(table0.entries, visited, mono)
  }

  lemma IntervalVisitedNone(table0: Dict<IntervalJob>, store0: map<Hash, ScheduleMessage>, mono: int)
    requires Valid(table0)
    ensures IntervalVisited(table0, store0, mono, 0, table0, store0, [], [])
  {
    assert table0.order[..0] == [];
    assert IntervalAfterOn(table0.entries, [], mono) == table0.entries;
    assert PersistOn(store0, table0.entries, [], mono) == store0;
  }

  lemma IntervalVisitedAll(table0: Dict<IntervalJob>, store0: map<Hash, ScheduleMessage>, mono: int,
                           table: Dict<IntervalJob>, store: map<Hash, ScheduleMessage>, fired: seq<Request>,
                           cancel: seq<Hash>)
    requires Valid(table0)
    requires IntervalVisited(table0, store0, mono, |table0.order|, table, store, fired, cancel)
    ensures table == Dict(table0.order, IntervalAfterAll(table0.entries, mono))
    ensures store == PersistCounts(store0, table0.entries, mono)
    ensures fired == IntervalSends(table0.entries, table0.order, mono)
    ensures cancel == CancelList(table0.entries, table0.order, mono)
  {
    var order := table0.order;
    assert order[..|order|] == order;
    IntervalAfterOnAll(table0.entries, order, mono);
    PersistOnAll(store0, table0.entries, order, mono);
  }

  /** One iteration of the interval loop: visit the `i`-th hash. */
  method VisitIntervalAt(table0: Dict<IntervalJob>, store0: map<Hash, ScheduleMessage>, mono: int, i: nat,
                      table: Dict<IntervalJob>, store: map<Hash, ScheduleMessage>, fired: seq<Request>,
                      cancel: seq<Hash>)
    returns (table': Dict<IntervalJob>, store': map<Hash, ScheduleMessage>, fired': seq<Request>,
             cancel': seq<Hash>, last': Hash)
    requires Valid(table0) && i < |table0.order|
    requires IntervalVisited(table0, store0, mono, i, table, store, fired, cancel)
    ensures IntervalVisited(table0, store0, mono, i + 1, table', store', fired', cancel')
    ensures last' == table0.order[i]
  {
    var order := table0.order;
    var jobHash := order[i];
    IntervalVisit(store0, table0.entries, order, i, mono);
    var job := table.entries[jobHash];
    var after, firedNow, queued;
    after, store', firedNow, queued := VisitIntervalJob(jobHash, job, store, mono);
    table' := Put(table, jobHash, after);
    fired' := fired + firedNow;
    cancel' := cancel + queued;
    last' := jobHash;
  }

  /**
   * The interval loop over a table and the store: the table and store
   * afterwards, the requests sent, the hashes queued for cancellation and
   * the hash visited last (`job_hash` after the loop).
   */
  method IntervalPass(table0: Dict<IntervalJob>, store0: map<Hash, ScheduleMessage>, mono: int)
    returns (table: Dict<IntervalJob>, store: map<Hash, ScheduleMessage>, fired: seq<Request>,
             cancel: seq<Hash>, last: Hash)
    requires Valid(table0)
    ensures table == Dict(table0.order, IntervalAfterAll(table0.entries, mono))
    ensures store == PersistCounts(store0, table0.entries, mono)
    ensures fired == IntervalSends(table0.entries, table0.order, mono)
    ensures cancel == CancelList(table0.entries, table0.order, mono)
    ensures table0.order != [] ==> last == table0.order[|table0.order| - 1]
  {
    table, store, fired, cancel, last := table0, store0, [], [], "";
    var order := table0.order;
    IntervalVisitedNone(table0, store0, mono);
    var i := 0;
    while i < |order|
      invariant 0 <= i <= |order|
      invariant IntervalVisited(table0, store0, mono, i, table, store, fired, cancel)
      invariant i > 0 ==> last == order[i - 1]
    {
      table, store, fired, cancel, last := VisitIntervalAt(table0, store0, mono, i, table, store, fired, cancel);
      i := i + 1;
    }
    IntervalVisitedAll(table0, store0, mono, table, store, fired, cancel);
  }

  /**
   * The table update of `on_schedule`: a non-negative interval files an
   * interval entry and drops the hash from the cron table, a negative one
   * files a cron entry (with no queue) and drops the hash from the
   * interval table.
   */
  method FileJob(t: Tables, h: Hash, interval: int, runCount: int, m: ScheduleMessage, env: Env) returns (r: Tables)
    requires Valid(t.interval) && Valid(t.cron)
    ensures Valid(r.interval) && Valid(r.cron)
    ensures interval >= 0 ==>
              r.interval == Put(t.interval, h, NewIntervalJob(env.intervalIter(interval), m.job, Some(m.queue), runCount))
              && r.cron == (if h in t.cron.entries then Pop(t.cron, h) else t.cron)
    ensures interval < 0 ==>
              r.cron == Put(t.cron, h, NewCronJob(env.cronIter(m.cron), env.ts, m.job, None))
              && r.interval == (if h in t.interval.entries then Pop(t.interval, h) else t.interval)
    ensures h in r.interval.entries <==> interval >= 0
    ensures h in r.cron.entries <==> interval < 0
  {
    r := t;
    if interval >= 0 {
      r := r.(interval := Put(r.interval, h, NewIntervalJob(env.intervalIter(interval), m.job, Some(m.queue), runCount)));
      if h in r.cron.entries {
        r := r.(cron := Pop(r.cron, h));
      }
    } else {
      r := r.(cron := Put(r.cron, h, NewCronJob(env.cronIter(m.cron), env.ts, m.job, None)));
      if h in r.interval.entries {
        r := r.(interval := Pop(r.interval, h));
      }
    }
  }

  /**
   * Haste mode of `on_schedule`: unless the headers contain `nohaste`, a
   * job with run count -1 or > 0 is sent at once, and a positive count of
   * an interval job is decremented for that run.
   */
  method Haste(t: Dict<IntervalJob>, h: Hash, headers: string, runCount: int, intervalJob: bool)
    returns (r: Dict<IntervalJob>, send: bool)
    requires Valid(t) && (intervalJob ==> h in t.entries)
    ensures Valid(r)
    ensures send <==> !Contains(headers, NOHASTE) && (runCount > 0 || runCount == INFINITE_RUN_COUNT)
    ensures r == if send && runCount > 0 && intervalJob
                 then Put(t, h, t.entries[h].(runCount := t.entries[h].runCount - 1))
                 else t
    ensures r.order == t.order && r.entries.Keys == t.entries.Keys
  {
    r, send := t, false;
    if !Contains(headers, NOHASTE) {
      if runCount > 0 || runCount == INFINITE_RUN_COUNT {
        if runCount > 0 && intervalJob {
          var entry := r.entries[h];
          r := Put(r, h, entry.(runCount := entry.runCount - 1));
        }
        send := true;
      }
    }
  }

  /** The table update of `unschedule_job`: the interval table is tried first, then the cron table. */
  method Unfile(t: Tables, h: Hash) returns (r: Tables)
    requires Valid(t.interval) && Valid(t.cron)
    ensures Valid(r.interval) && Valid(r.cron)
    ensures h in t.interval.entries ==> r.interval == Pop(t.interval, h) && r.cron == t.cron
    ensures h !in t.interval.entries && h in t.cron.entries ==>
              r.interval == t.interval && r.cron == Pop(t.cron, h)
    ensures h !in t.interval.entries && h !in t.cron.entries ==> r == t
    ensures h !in r.interval.entries && (h in t.interval.entries || h !in r.cron.entries)
  {
    r := t;
    if h in t.interval.entries {
      r := r.(interval := Pop(t.interval, h));
    } else if h in t.cron.entries {
      r := r.(cron := Pop(t.cron, h));
    }
  }

  /** The store update of `unschedule_job`: a stored hash is deleted, with every occurrence in the index list. */
  method Forget(store0: map<Hash, ScheduleMessage>, index0: seq<Hash>, h: Hash)
    returns (store: map<Hash, ScheduleMessage>, index: seq<Hash>)
    ensures store == store0 - {h} && h !in store
    ensures index == if h in store0 then Without(index0, h) else index0
    ensures NoDups(index0) ==> NoDups(index)
    ensures h in store0 ==> h !in index
  {
    store, index := store0, index0;
    if h in store {
      store := store - {h};
      WithoutNoDups(index, h);
      index := Without(index, h);
    } else {
      assert store0 - {h} == store0;
    }
  }

  /**
   * The table half of `on_schedule` once its frames have parsed: file the
   * job under its key and decide whether haste mode sends it now.
   */
  method FileAndHaste(key: JobMessage -> Hash, t: Tables, m: ScheduleMessage, interval: int, runCount: int, env: Env)
    returns (r: Tables, send: bool)
    requires TablesValid(key, t)
    ensures TablesValid(key, r)
    ensures t.interval.entries.Keys !! t.cron.entries.Keys ==> r.interval.entries.Keys !! r.cron.entries.Keys
    ensures send <==> !Contains(m.headers, NOHASTE) && (runCount > 0 || runCount == INFINITE_RUN_COUNT)
    ensures var h := key(m.job);
            interval >= 0 ==>
              r.interval == Put(t.interval, h, NewIntervalJob(env.intervalIter(interval), m.job, Some(m.queue),
                                                              if send && runCount > 0 then runCount - 1 else runCount))
              && r.cron == (if h in t.cron.entries then Pop(t.cron, h) else t.cron)
    ensures var h := key(m.job);
            interval < 0 ==>
              r.cron == Put(t.cron, h, NewCronJob(env.cronIter(m.cron), env.ts, m.job, None))
              && r.interval == (if h in t.interval.entries then Pop(t.interval, h) else t.interval)
    ensures key(m.job) in r.interval.entries <==> interval >= 0
    ensures key(m.job) in r.cron.entries <==> interval < 0
  {
    var h := key(m.job);
    var filed := FileJob(t, h, interval, runCount, m, env);
    var intervals;
    intervals, send := Haste(filed.interval, h, m.headers, runCount, interval >= 0);
    if interval >= 0 && send && runCount > 0 {
      var job := NewIntervalJob(env.intervalIter(interval), m.job, Some(m.queue), runCount);
      NewIntervalJobCount(env.intervalIter(interval), m.job, Some(m.queue), runCount, runCount - 1);
      PutPut(t.interval, h, job, job.(runCount := runCount - 1));
    }
    r := filed.(interval := intervals);
  }

  /**
   * `on_schedule` once its frames have parsed: file the job under its key,
   * persist the request (a new hash goes to the head of the index list),
   * and decide whether haste mode sends it now.
   */
  method ScheduleParsed(key: JobMessage -> Hash, t: Tables, index0: seq<Hash>, store0: map<Hash, ScheduleMessage>,
                        m: ScheduleMessage, interval: int, runCount: int, env: Env)
    returns (r: Tables, index: seq<Hash>, store: map<Hash, ScheduleMessage>, send: bool)
    requires TablesValid(key, t)
    ensures TablesValid(key, r)
    ensures t.interval.entries.Keys !! t.cron.entries.Keys ==> r.interval.entries.Keys !! r.cron.entries.Keys
    ensures send <==> !Contains(m.headers, NOHASTE) && (runCount > 0 || runCount == INFINITE_RUN_COUNT)
    ensures var h := key(m.job);
            interval >= 0 ==>
              r.interval == Put(t.interval, h, NewIntervalJob(env.intervalIter(interval), m.job, Some(m.queue),
                                                              if send && runCount > 0 then runCount - 1 else runCount))
              && r.cron == (if h in t.cron.entries then Pop(t.cron, h) else t.cron)
    ensures var h := key(m.job);
            interval < 0 ==>
              r.cron == Put(t.cron, h, NewCronJob(env.cronIter(m.cron), env.ts, m.job, None))
              && r.interval == (if h in t.interval.entries then Pop(t.interval, h) else t.interval)
    ensures key(m.job) in r.interval.entries <==> interval >= 0
    ensures key(m.job) in r.cron.entries <==> interval < 0
    ensures index == if key(m.job) in index0 then index0 else [key(m.job)] + index0
    ensures NoDups(index0) ==> NoDups(index) && key(m.job) in index
    ensures store == store0[key(m.job) := m]
  {
    r, send := FileAndHaste(key, t, m, interval, runCount, env);
    var h := key(m.job);
    index := index0;
    if h !in index {
      index := [h] + index;
    }
    store := store0[h := m];
  }

  class Scheduler {
    /** `schedule_hash` applied to a job message: the digest of its identifying fields. */
    const key: JobMessage -> Hash
    /** `self.interval_jobs`, in insertion order. */
    var intervalJobs: Dict<IntervalJob>
    /** `self.cron_jobs`, in insertion order. */
    var cronJobs: Dict<CronJob>
    /** The store's hash keys: each holds the request that scheduled the job. */
    var store: map<Hash, ScheduleMessage>
    /** The store's `'interval_jobs'` list. */
    var index: seq<Hash>
    /** Every request sent to the broker, oldest first. */
    ghost var sent: seq<Request>

    ghost predicate Valid()
      reads this
    {
      TablesValid(key, Tables(intervalJobs, cronJobs))
    }

    /** No hash is in both tables. */
    ghost predicate Disjoint()
      reads this
    {
      intervalJobs.entries.Keys !! cronJobs.entries.Keys
    }

    /**
     * The table set-up of `__init__` followed by `load_jobs`: the tables
     * are restored from the store; with a consistent store every job lands
     * in exactly one table.
     */
    constructor (digest: string -> Hash, store: map<Hash, ScheduleMessage>, index: seq<Hash>, env: Env)
      ensures Valid()
      ensures forall m: ScheduleMessage :: key(m.job) == ScheduleHash(digest, m)
      ensures this.store == store && this.index == index && sent == []
      ensures Tables(intervalJobs, cronJobs) == RestoreAll(key, Tables(Empty(), Empty()), index, store, env)
      ensures StoreKeyed(key, store) ==> Disjoint()
    {
      key := job => JobKey(digest, job);
      intervalJobs := Empty();
      cronJobs := Empty();
      this.store := store;
      this.index := index;
      sent := [];
      new;
      LoadJobs(env);
      if StoreKeyed(key, store) {
        RestoredTablesDisjoint(key, index, store, env);
      }
    }

    /** `load_jobs`: restore every hash of the index list the store holds, stopping at the first exception. */
    method LoadJobs(env: Env)
      requires Valid()
      modifies this
      ensures Valid()
      ensures Tables(intervalJobs, cronJobs) == RestoreAll(key, old(Tables(intervalJobs, cronJobs)), index, store, env)
      ensures store == old(store) && index == old(index) && sent == old(sent)
    {
      var keys := index;
      var i := 0;
      while i < |keys|
        invariant 0 <= i <= |keys|
        invariant Valid()
        invariant RestoreAll(key, Tables(intervalJobs, cronJobs), keys[i..], store, env)
                  == RestoreAll(key, old(Tables(intervalJobs, cronJobs)), keys, store, env)
        invariant store == old(store) && index == old(index) && sent == old(sent)
      {
        assert keys[i..][1..] == keys[i + 1..];
        var h := keys[i];
        if h in store {
          var outcome := LoadJobFromStore(store[h], env);
          if outcome.Failed? {
            return;
          }
        }
        i := i + 1;
      }
    }

    /** `load_job_from_redis(message)`. */
    method LoadJobFromStore(m: ScheduleMessage, env: Env) returns (outcome: Outcome)
      requires Valid()
      modifies this
      ensures Valid()
      ensures store == old(store) && index == old(index) && sent == old(sent)
      ensures match Restore(key, old(Tables(intervalJobs, cronJobs)), m, env)
              case Raised(e) => outcome == Failed(e) && intervalJobs == old(intervalJobs) && cronJobs == old(cronJobs)
              case Ok(t) => outcome == Done && Tables(intervalJobs, cronJobs) == t
    {
      var parsed := ParseInt(m.interval);
      if parsed.None? {
        return Failed(ValueError);
      }
      var interval := parsed.value;
      var h := key(m.job);
      var cron := if interval == -1 then m.cron else "";
      if interval >= 0 {
        var runCount := GetRunCountFromHeaders(m.headers);
        if runCount.Raised? {
          return Failed(runCount.error);
        }
        var job := NewIntervalJob(env.intervalIter(interval), m.job, Some(m.queue), runCount.value);
        intervalJobs := Put(intervalJobs, h, job);
      } else if cron != "" {
        var job := NewCronJob(env.cronIter(cron), env.ts, m.job, Some(m.queue));
        cronJobs := Put(cronJobs, h, job);
      }
      return Done;
    }

    /**
     * `on_schedule` once the interval and run count have parsed: file the
     * job under its hash, persist the request, and in haste mode send it.
     */
    method ScheduleJob(m: ScheduleMessage, interval: int, runCount: int, env: Env)
      requires Valid()
      modifies this
      ensures Valid()
      ensures old(Disjoint()) ==> Disjoint()
      ensures var h := key(m.job);
              var haste := !Contains(m.headers, NOHASTE);
              && (h in intervalJobs.entries <==> interval >= 0)
              && (h in cronJobs.entries <==> interval < 0)
              && (interval >= 0 ==>
                    intervalJobs == Put(old(intervalJobs), h,
                      NewIntervalJob(env.intervalIter(interval), m.job, Some(m.queue),
                                     if haste && runCount > 0 then runCount - 1 else runCount))
                    && cronJobs == (if h in old(cronJobs.entries) then Pop(old(cronJobs), h) else old(cronJobs)))
              && (interval < 0 ==>
                    cronJobs == Put(old(cronJobs), h, NewCronJob(env.cronIter(m.cron), env.ts, m.job, None))
                    && intervalJobs == (if h in old(intervalJobs.entries) then Pop(old(intervalJobs), h) else old(intervalJobs)))
              && index == (if h in old(index) then old(index) else [h] + old(index))
              && store == old(store)[h := m]
              && sent == old(sent) + (if haste && (runCount > 0 || runCount == INFINITE_RUN_COUNT)
                                      then [Request(m.job, Some(m.queue))] else [])
    {
      var tables, keys, redis, send := ScheduleParsed(key, Tables(intervalJobs, cronJobs), index, store, m, interval, runCount, env);
      intervalJobs, cronJobs, index, store := tables.interval, tables.cron, keys, redis;
      if send {
        sent := sent + [Request(m.job, Some(m.queue))];
      }
    }

    /**
     * `on_schedule`: a malformed interval or run count raises ValueError
     * before anything changes; otherwise the job is scheduled as
     * `ScheduleJob` states.
     */
    method OnSchedule(m: ScheduleMessage, env: Env) returns (outcome: Outcome)
      requires Valid()
      modifies this
      ensures Valid()
      ensures old(Disjoint()) ==> Disjoint()
      ensures ParseInt(m.interval).None? || RunCountOf(m.headers).Raised? ==>
                outcome == Failed(ValueError)
                && intervalJobs == old(intervalJobs) && cronJobs == old(cronJobs)
                && store == old(store) && index == old(index) && sent == old(sent)
      ensures ParseInt(m.interval).Some? && RunCountOf(m.headers).Ok? ==>
                var interval, runCount := ParseInt(m.interval).value, RunCountOf(m.headers).value;
                var h := key(m.job);
                var haste := !Contains(m.headers, NOHASTE);
                && outcome == Done
                && (h in intervalJobs.entries <==> interval >= 0)
                && (h in cronJobs.entries <==> interval < 0)
                && (interval >= 0 ==>
                      intervalJobs == Put(old(intervalJobs), h,
                        NewIntervalJob(env.intervalIter(interval), m.job, Some(m.queue),
                                       if haste && runCount > 0 then runCount - 1 else runCount))
                      && cronJobs == (if h in old(cronJobs.entries) then Pop(old(cronJobs), h) else old(cronJobs)))
                && (interval < 0 ==>
                      cronJobs == Put(old(cronJobs), h, NewCronJob(env.cronIter(m.cron), env.ts, m.job, None))
                      && intervalJobs == (if h in old(intervalJobs.entries) then Pop(old(intervalJobs), h) else old(intervalJobs)))
                && index == (if h in old(index) then old(index) else [h] + old(index))
                && store == old(store)[h := m]
                && sent == old(sent) + (if haste && (runCount > 0 || runCount == INFINITE_RUN_COUNT)
                                        then [Request(m.job, Some(m.queue))] else [])
    {
      var parsed := ParseInt(m.interval);
      if parsed.None? {
        return Failed(ValueError);
      }
      var interval := parsed.value;
      var counted := GetRunCountFromHeaders(m.headers);
      if counted.Raised? {
        RunCountRaises(Split(m.headers, ','), INFINITE_RUN_COUNT);
        return Failed(counted.error);
      }
      ScheduleJob(m, interval, counted.value, env);
      return Done;
    }

    /**
     * `unschedule_job`: drop the hash from the interval table if it is
     * there, otherwise from the cron table; if the store holds the hash,
     * delete it and every occurrence of it in the index list.
     */
    method UnscheduleJob(m: ScheduleMessage)
      requires Valid()
      modifies this
      ensures Valid()
      ensures old(Disjoint()) ==> Disjoint()
      ensures var h := key(m.job);
              && (h in old(intervalJobs.entries) ==>
                    intervalJobs == Pop(old(intervalJobs), h) && cronJobs == old(cronJobs))
              && (h !in old(intervalJobs.entries) && h in old(cronJobs.entries) ==>
                    intervalJobs == old(intervalJobs) && cronJobs == Pop(old(cronJobs), h))
              && (h !in old(intervalJobs.entries) && h !in old(cronJobs.entries) ==>
                    intervalJobs == old(intervalJobs) && cronJobs == old(cronJobs))
              && store == old(store) - {h}
              && index == (if h in old(store) then Without(old(index), h) else old(index))
              && sent == old(sent)
    {
      var h := key(m.job);
      var tables := Unfile(Tables(intervalJobs, cronJobs), h);
      var redis, keys := Forget(store, index, h);
      intervalJobs, cronJobs, store, index := tables.interval, tables.cron, redis, keys;
    }

    /** The cron loop of one pass (`scheduler.py:174-195`). */
    method FireCronJobs(ts: int)
      requires Valid()
      modifies this
      ensures Valid()
      ensures cronJobs == Dict(old(cronJobs.order), CronAfterAll(old(cronJobs.entries), ts))
      ensures sent == old(sent) + CronSends(old(cronJobs.entries), old(cronJobs.order), ts)
      ensures intervalJobs == old(intervalJobs) && store == old(store) && index == old(index)
    {
      var table, fired := CronPass(cronJobs, ts);
      CronAfterKeyed(key, cronJobs.entries, ts);
      cronJobs := table;
      sent := sent + fired;
    }

    /**
     * The interval loop of one pass (`scheduler.py:197-253`): returns
     * `cancel_jobs` and `job_hash`, the hash visited last.
     */
    method FireIntervalJobs(mono: int) returns (cancel: seq<Hash>, last: Hash)
      requires Valid()
      modifies this
      ensures Valid()
      ensures intervalJobs == Dict(old(intervalJobs.order), IntervalAfterAll(old(intervalJobs.entries), mono))
      ensures store == PersistCounts(old(store), old(intervalJobs.entries), mono)
      ensures sent == old(sent) + IntervalSends(old(intervalJobs.entries), old(intervalJobs.order), mono)
      ensures cancel == CancelList(old(intervalJobs.entries), old(intervalJobs.order), mono)
      ensures old(intervalJobs.order) != [] ==> last == old(intervalJobs.order)[|old(intervalJobs.order)| - 1]
      ensures cronJobs == old(cronJobs) && index == old(index)
    {
      var table, redis, fired;
      table, redis, fired, cancel, last := IntervalPass(intervalJobs, store, mono);
      IntervalAfterKeyed(key, intervalJobs.entries, mono);
      intervalJobs := table;
      store := redis;
      sent := sent + fired;
    }

    /** The cancel loop of one pass (`scheduler.py:257-267`), deleting `last` on every iteration. */
    method CancelJobs(cancel: seq<Hash>, last: Hash) returns (outcome: Outcome)
      requires Valid()
      modifies this
      ensures Valid()
      ensures CancelState(intervalJobs, store, index, outcome)
              == CancelAsWritten(old(intervalJobs), old(store), old(index), cancel, last)
      ensures cronJobs == old(cronJobs) && sent == old(sent)
    {
      var i := 0;
      while i < |cancel|
        invariant 0 <= i <= |cancel| && i <= 1
        invariant Valid()
        invariant i == 0 ==> intervalJobs == old(intervalJobs) && store == old(store) && index == old(index)
        invariant i == 1 ==> last in old(intervalJobs.entries) && intervalJobs == Pop(old(intervalJobs), last)
                             && store == old(store) - {last} && index == Without(old(index), last)
        invariant cronJobs == old(cronJobs) && sent == old(sent)
      {
        if i == 1 {
          WithoutAbsent(index, last);
          assert store - {last} == store;
        }
        store := store - {last};
        index := Without(index, last);
        if last !in intervalJobs.entries {
          return Failed(KeyError);
        }
        intervalJobs := Pop(intervalJobs, last);
        i := i + 1;
      }
      return Done;
    }

    /**
     * One pass of `_start_event_loop` over the job tables, at timestamp
     * `ts` and monotonic time `mono`, as the code is written.
     */
    method Tick(ts: int, mono: int) returns (outcome: Outcome)
      requires Valid()
      modifies this
      ensures Valid()
      ensures old(Disjoint()) ==> Disjoint()
      ensures cronJobs == Dict(old(cronJobs.order), CronAfterAll(old(cronJobs.entries), ts))
      ensures sent == old(sent) + CronSends(old(cronJobs.entries), old(cronJobs.order), ts)
                                + IntervalSends(old(intervalJobs.entries), old(intervalJobs.order), mono)
      ensures var order, entries := old(intervalJobs.order), old(intervalJobs.entries);
              order != [] ==>
                CancelState(intervalJobs, store, index, outcome)
                == CancelAsWritten(Dict(order, IntervalAfterAll(entries, mono)), PersistCounts(old(store), entries, mono),
                                   old(index), CancelList(entries, order, mono), order[|order| - 1])
      ensures old(intervalJobs.order) == [] ==>
                intervalJobs == old(intervalJobs) && store == old(store) && index == old(index) && outcome == Done
    {
      ghost var order, entries, store0 := intervalJobs.order, intervalJobs.entries, store;
      FireCronJobs(ts);
      var cancel, last := FireIntervalJobs(mono);
      if order == [] {
        CancelListInKeys(entries, order, mono);
        assert entries == map[];
        assert IntervalAfterAll(entries, mono) == entries;
        assert PersistCounts(store0, entries, mono) == store0;
      }
      outcome := CancelJobs(cancel, last);
    }
  }
}
