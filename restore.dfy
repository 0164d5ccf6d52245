/**
 * Restoring the job tables from the store at start-up:
 * `load_job_from_redis` for one stored request, and the `load_jobs` loop
 * over the stored `'interval_jobs'` index list.
 */
module Restoring {
  import opened Outcomes
  import opened Text
  import opened Headers
  import opened Messages
  import opened Dicts
  import opened Jobs

  /** The two in-memory tables. */
  datatype Tables = Tables(interval: Dict<IntervalJob>, cron: Dict<CronJob>)

  ghost predicate TablesValid(key: JobMessage -> Hash, t: Tables)
  {
    Valid(t.interval) && Valid(t.cron)
    && IntervalKeyed(key, t.interval.entries) && CronKeyed(key, t.cron.entries)
  }

  /**
   * `load_job_from_redis(message)`: a non-negative interval files an
   * interval entry, interval -1 with a non-empty cron expression files a
   * cron entry with the request's queue, anything else files nothing;
   * a malformed interval or run count raises ValueError.
   */
  function Restore(key: JobMessage -> Hash, t: Tables, m: ScheduleMessage, env: Env): (r: Result<Tables>)
    ensures r.Raised? <==>
              ParseInt(m.interval).None?
              || (ParseInt(m.interval).value >= 0 && RunCountOf(m.headers).Raised?)
    ensures r.Ok? ==> forall h :: h != key(m.job) ==>
              (h in r.value.interval.entries <==> h in t.interval.entries)
              && (h in r.value.cron.entries <==> h in t.cron.entries)
              && (h in t.interval.entries ==> r.value.interval.entries[h] == t.interval.entries[h])
              && (h in t.cron.entries ==> r.value.cron.entries[h] == t.cron.entries[h])
    ensures r.Ok? && ParseInt(m.interval).value >= 0 ==>
              key(m.job) in r.value.interval.entries && r.value.cron == t.cron
              && r.value.interval.entries[key(m.job)]
                 == NewIntervalJob(env.intervalIter(ParseInt(m.interval).value), m.job, Some(m.queue),
                                   RunCountOf(m.headers).value)
    ensures r.Ok? && ParseInt(m.interval).value == -1 && m.cron != "" ==>
              key(m.job) in r.value.cron.entries && r.value.interval == t.interval
              && r.value.cron.entries[key(m.job)] == NewCronJob(env.cronIter(m.cron), env.ts, m.job, Some(m.queue))
    ensures r.Ok? && ParseInt(m.interval).value < 0 && !(ParseInt(m.interval).value == -1 && m.cron != "") ==>
              r.value == t
    ensures r.Ok? && TablesValid(key, t) ==> TablesValid(key, r.value)
  {
    match ParseInt(m.interval)
    case None => Raised(ValueError)
    case Some(interval) =>
      var h := key(m.job);
      var cron := if interval == -1 then m.cron else "";
      if interval >= 0 then
        match RunCountOf(m.headers)
        case Raised(e) => Raised(e)
        case Ok(rc) =>
          var job := NewIntervalJob(env.intervalIter(interval), m.job, Some(m.queue), rc);
          Ok(t.(interval := Put(t.interval, h, job)))
      else if cron != "" then
        var job := NewCronJob(env.cronIter(cron), env.ts, m.job, Some(m.queue));
        Ok(t.(cron := Put(t.cron, h, job)))
      else Ok(t)
  }

  /**
   * `load_jobs`: restore each hash of the index list that the store holds,
   * in list order, until one raises (the exception ends the whole loop).
   */
  function RestoreAll(key: JobMessage -> Hash, t: Tables, keys: seq<Hash>,
                      store: map<Hash, ScheduleMessage>, env: Env): Tables
    decreases |keys|
  {
    if keys == [] then t
    else if keys[0] !in store then RestoreAll(key, t, keys[1..], store, env)
    else match Restore(key, t, store[keys[0]], env)
      case Raised(_) => t
      case Ok(t') => RestoreAll(key, t', keys[1..], store, env)
  }

  /** Every stored request is filed under its own key. */
  ghost predicate StoreKeyed(key: JobMessage -> Hash, store: map<Hash, ScheduleMessage>)
  {
    forall h :: h in store ==> key(store[h].job) == h
  }

  /**
   * Each interval entry comes from a stored request with a non-negative
   * interval, each cron entry from one with interval -1.
   */
  ghost predicate BackedByStore(t: Tables, store: map<Hash, ScheduleMessage>)
  {
    (forall h :: h in t.interval.entries ==>
       h in store && ParseInt(store[h].interval).Some? && ParseInt(store[h].interval).value >= 0)
    && (forall h :: h in t.cron.entries ==> h in store && ParseInt(store[h].interval) == Some(-1))
  }

  /**
   * Restoring from a store whose requests sit under their own keys keeps
   * every entry backed by the store, and adds only hashes of the index.
   */
  lemma {:induction false} RestoreAllBacked(key: JobMessage -> Hash, t: Tables, keys: seq<Hash>,
                                            store: map<Hash, ScheduleMessage>, env: Env)
    requires StoreKeyed(key, store) && BackedByStore(t, store)
    ensures BackedByStore(RestoreAll(key, t, keys, store, env), store)
    ensures forall h :: h in RestoreAll(key, t, keys, store, env).interval.entries ==>
              h in t.interval.entries || h in keys
    ensures forall h :: h in RestoreAll(key, t, keys, store, env).cron.entries ==>
              h in t.cron.entries || h in keys
    decreases |keys|
  {
    if keys != [] {
      if keys[0] !in store {
        RestoreAllBacked(key, t, keys[1..], store, env);
      } else {
        var r := Restore(key, t, store[keys[0]], env);
        if r.Ok? {
          assert key(store[keys[0]].job) == keys[0];
          RestoreAllBacked(key, r.value, keys[1..], store, env);
        }
      }
    }
  }

  /**
   * Starting from empty tables, a consistent store restores each job into
   * exactly one table, and only jobs named by the index list.
   */
  lemma RestoredTablesDisjoint(key: JobMessage -> Hash, keys: seq<Hash>,
                               store: map<Hash, ScheduleMessage>, env: Env)
    requires StoreKeyed(key, store)
    ensures var r := RestoreAll(key, Tables(Empty(), Empty()), keys, store, env);
            r.interval.entries.Keys !! r.cron.entries.Keys
            && (forall h :: h in r.interval.entries ==> h in keys && h in store)
            && (forall h :: h in r.cron.entries ==> h in keys && h in store)
  {
    RestoreAllBacked(key, Tables(Empty(), Empty()), keys, store, env);
  }

  /** A stored request that `load_job_from_redis` files without raising. */
  ghost predicate Restorable(m: ScheduleMessage)
  {
    ParseInt(m.interval).Some? && (ParseInt(m.interval).value >= 0 ==> RunCountOf(m.headers).Ok?)
  }

  /** Restoring the hashes `keys` leaves every other hash's entries as they were. */
  lemma {:induction false} RestoreAllKeeps(key: JobMessage -> Hash, t: Tables, keys: seq<Hash>,
                                           store: map<Hash, ScheduleMessage>, env: Env)
    requires StoreKeyed(key, store)
    ensures var r := RestoreAll(key, t, keys, store, env);
            forall h :: h !in keys ==>
              (h in r.interval.entries <==> h in t.interval.entries)
              && (h in r.cron.entries <==> h in t.cron.entries)
              && (h in t.interval.entries ==> r.interval.entries[h] == t.interval.entries[h])
              && (h in t.cron.entries ==> r.cron.entries[h] == t.cron.entries[h])
    decreases |keys|
  {
    if keys != [] {
      if keys[0] !in store {
        RestoreAllKeeps(key, t, keys[1..], store, env);
      } else {
        var r := Restore(key, t, store[keys[0]], env);
        if r.Ok? {
          assert key(store[keys[0]].job) == keys[0];
          RestoreAllKeeps(key, r.value, keys[1..], store, env);
        }
      }
    }
  }

  /**
   * `load_jobs` loads every job that needs scheduling: when every indexed
   * stored request restores without raising, each one with a non-negative
   * interval is in the interval table with its queue and its headers' run
   * count, and each one with interval -1 and a cron expression is in the
   * cron table with its queue.
   */
  lemma {:induction false} RestoreAllComplete(key: JobMessage -> Hash, t: Tables, keys: seq<Hash>,
                                              store: map<Hash, ScheduleMessage>, env: Env)
    requires StoreKeyed(key, store)
    requires forall k :: k in keys && k in store ==> Restorable(store[k])
    ensures var r := RestoreAll(key, t, keys, store, env);
            forall h :: h in keys && h in store && Restorable(store[h]) && ParseInt(store[h].interval).value >= 0 ==>
              h in r.interval.entries
              && r.interval.entries[h]
                 == NewIntervalJob(env.intervalIter(ParseInt(store[h].interval).value), store[h].job,
                                   Some(store[h].queue), RunCountOf(store[h].headers).value)
    ensures var r := RestoreAll(key, t, keys, store, env);
            forall h :: h in keys && h in store && ParseInt(store[h].interval) == Some(-1) && store[h].cron != "" ==>
              h in r.cron.entries
              && r.cron.entries[h] == NewCronJob(env.cronIter(store[h].cron), env.ts, store[h].job, Some(store[h].queue))
    decreases |keys|
  {
    if keys != [] {
      var k := keys[0];
      assert forall h :: h in keys <==> h == k || h in keys[1..];
      if k !in store {
        RestoreAllComplete(key, t, keys[1..], store, env);
      } else {
        var r := Restore(key, t, store[k], env);
        assert key(store[k].job) == k;
        RestoreAllComplete(key, r.value, keys[1..], store, env);
        RestoreAllKeeps(key, r.value, keys[1..], store, env);
      }
    }
  }
}
