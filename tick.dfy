/**
 * One pass of the scheduler's event loop over its job tables, as the code
 * is written (`scheduler.py:174-267`): the cron loop, the interval loop
 * with its run-count handling and header rewrite, and the cancel loop.
 *
 * As written, neither loop stores the next time it draws from an
 * iterator, and the interval loop never stores the decremented run count:
 * both are assigned to locals only. The iterator objects, however, are
 * shared with the table entries, so drawing from them moves them on.
 */
module Ticking {
  import opened Outcomes
  import opened Text
  import opened Headers
  import opened Messages
  import opened Dicts
  import opened Jobs

  // ---- cron loop ----

  /** The request a cron entry sends in this pass: one when its time has come. */
  function CronFired(c: CronJob, ts: int): seq<Request>
  {
    if c.next <= ts then [Request(c.msg, c.queue)] else []
  }

  /** A cron entry after the pass: a due entry's iterator moves on, its next time stays. */
  function CronAfter(c: CronJob, ts: int): CronJob
  {
    if c.next <= ts then c.(iter := Advance(c.iter)) else c
  }

  /** The requests the cron loop sends, visiting `keys` in order. */
  function CronSends(entries: map<Hash, CronJob>, keys: seq<Hash>, ts: int): seq<Request>
    requires forall k :: k in keys ==> k in entries
    decreases |keys|
  {
    if keys == [] then []
    else CronSends(entries, keys[..|keys| - 1], ts) + CronFired(entries[keys[|keys| - 1]], ts)
  }

  function CronAfterAll(entries: map<Hash, CronJob>, ts: int): map<Hash, CronJob>
  {
    map h | h in entries :: CronAfter(entries[h], ts)
  }

  /** The cron table once the loop has visited `keys`. */
  function CronAfterOn(entries: map<Hash, CronJob>, keys: seq<Hash>, ts: int): map<Hash, CronJob>
  {
    map h | h in entries :: if h in keys then CronAfter(entries[h], ts) else entries[h]
  }

  /** Visiting one more entry updates that entry only. */
  lemma CronAfterStep(entries: map<Hash, CronJob>, keys: seq<Hash>, h: Hash, ts: int)
    requires h in entries
    ensures CronAfterOn(entries, keys + [h], ts) == CronAfterOn(entries, keys, ts)[h := CronAfter(entries[h], ts)]
  {
    assert forall k :: k in keys + [h] <==> k in keys || k == h;
  }

  /** Once every key has been visited, the whole table has passed. */
  lemma CronAfterOnAll(entries: map<Hash, CronJob>, keys: seq<Hash>, ts: int)
    requires forall k :: k in entries ==> k in keys
    ensures CronAfterOn(entries, keys, ts) == CronAfterAll(entries, ts)
  {
  }

  lemma CronSendsStep(entries: map<Hash, CronJob>, keys: seq<Hash>, h: Hash, ts: int)
    requires forall k :: k in keys ==> k in entries
    requires h in entries
    ensures CronSends(entries, keys + [h], ts) == CronSends(entries, keys, ts) + CronFired(entries[h], ts)
  {
    assert (keys + [h])[..|keys|] == keys;
  }

  /** The cron loop sends a request for a visited entry exactly when that entry is due. */
  lemma {:induction false} CronSendsExactly(entries: map<Hash, CronJob>, keys: seq<Hash>, ts: int)
    requires forall k :: k in keys ==> k in entries
    ensures forall r :: r in CronSends(entries, keys, ts) ==>
              exists k :: k in keys && entries[k].next <= ts && r == Request(entries[k].msg, entries[k].queue)
    ensures forall k :: k in keys && entries[k].next <= ts ==>
              Request(entries[k].msg, entries[k].queue) in CronSends(entries, keys, ts)
    decreases |keys|
  {
    if keys != [] {
      var init := keys[..|keys| - 1];
      CronSendsExactly(entries, init, ts);
      forall k | k in keys
        ensures k == keys[|keys| - 1] || k in init
      {
        var i :| 0 <= i < |keys| && keys[i] == k;
        if i < |keys| - 1 {
          assert init[i] == k;
        }
      }
    }
  }

  // ---- interval loop ----

  /** What the interval loop does with one entry. */
  datatype Action =
    | Wait                          // not yet due
    | RunForever                    // due, run count INFINITE_RUN_COUNT: send
    | RunCounted(remaining: int)    // due, run count > 0: persist the decremented count, send
    | Cancel                        // due, run count <= 0: queue for cancellation

  function ActionOf(j: IntervalJob, mono: int): Action
  {
    if !(j.next <= mono) then Wait
    else if j.runCount == INFINITE_RUN_COUNT then RunForever
    else if j.runCount <= 0 then Cancel
    else RunCounted(j.runCount - 1)
  }

  predicate Runs(a: Action)
  {
    a.RunForever? || a.RunCounted?
  }

  function IntervalFired(j: IntervalJob, mono: int): seq<Request>
  {
    if Runs(ActionOf(j, mono)) then [Request(j.msg, j.queue)] else []
  }

  /** An interval entry after the pass: a run moves the iterator on and changes nothing else. */
  function IntervalAfter(j: IntervalJob, mono: int): IntervalJob
  {
    if Runs(ActionOf(j, mono)) then j.(iter := Advance(j.iter)) else j
  }

  function IntervalAfterAll(entries: map<Hash, IntervalJob>, mono: int): map<Hash, IntervalJob>
  {
    map h | h in entries :: IntervalAfter(entries[h], mono)
  }

  /** The requests the interval loop sends, visiting `keys` in order. */
  function IntervalSends(entries: map<Hash, IntervalJob>, keys: seq<Hash>, mono: int): seq<Request>
    requires forall k :: k in keys ==> k in entries
    decreases |keys|
  {
    if keys == [] then []
    else IntervalSends(entries, keys[..|keys| - 1], mono) + IntervalFired(entries[keys[|keys| - 1]], mono)
  }

  /** `cancel_jobs`: the visited hashes whose entry is due with a run count <= 0. */
  function CancelList(entries: map<Hash, IntervalJob>, keys: seq<Hash>, mono: int): seq<Hash>
    requires forall k :: k in keys ==> k in entries
    decreases |keys|
  {
    if keys == [] then []
    else
      var last := keys[|keys| - 1];
      CancelList(entries, keys[..|keys| - 1], mono)
      + (if ActionOf(entries[last], mono) == Cancel then [last] else [])
  }

  /** A stored request after its entry's visit: a counted run rewrites its headers to the decremented count. */
  function PersistOne(m: ScheduleMessage, j: IntervalJob, mono: int): ScheduleMessage
  {
    if ActionOf(j, mono).RunCounted?
    then m.(headers := RewrittenHeaders(m.headers, ActionOf(j, mono).remaining))
    else m
  }

  /** The store after the pass. */
  function PersistCounts(store: map<Hash, ScheduleMessage>, entries: map<Hash, IntervalJob>, mono: int)
    : map<Hash, ScheduleMessage>
  {
    map h | h in store :: if h in entries then PersistOne(store[h], entries[h], mono) else store[h]
  }

  /** The interval table once the loop has visited `keys`. */
  function IntervalAfterOn(entries: map<Hash, IntervalJob>, keys: seq<Hash>, mono: int): map<Hash, IntervalJob>
  {
    map h | h in entries :: if h in keys then IntervalAfter(entries[h], mono) else entries[h]
  }

  lemma IntervalAfterStep(entries: map<Hash, IntervalJob>, keys: seq<Hash>, h: Hash, mono: int)
    requires h in entries
    ensures IntervalAfterOn(entries, keys + [h], mono)
            == IntervalAfterOn(entries, keys, mono)[h := IntervalAfter(entries[h], mono)]
  {
    assert forall k :: k in keys + [h] <==> k in keys || k == h;
  }

  lemma IntervalAfterOnAll(entries: map<Hash, IntervalJob>, keys: seq<Hash>, mono: int)
    requires forall k :: k in entries ==> k in keys
    ensures IntervalAfterOn(entries, keys, mono) == IntervalAfterAll(entries, mono)
  {
  }

  /** The store once the loop has visited `keys`. */
  function PersistOn(store: map<Hash, ScheduleMessage>, entries: map<Hash, IntervalJob>, keys: seq<Hash>, mono: int)
    : map<Hash, ScheduleMessage>
  {
    map h | h in store :: if h in keys && h in entries then PersistOne(store[h], entries[h], mono) else store[h]
  }

  lemma PersistStep(store: map<Hash, ScheduleMessage>, entries: map<Hash, IntervalJob>, keys: seq<Hash>,
                    h: Hash, mono: int)
    requires h in entries && h !in keys
    ensures h in store ==>
              PersistOn(store, entries, keys + [h], mono)
              == PersistOn(store, entries, keys, mono)[h := PersistOne(store[h], entries[h], mono)]
    ensures h !in store ==> PersistOn(store, entries, keys + [h], mono) == PersistOn(store, entries, keys, mono)
  {
    assert forall k :: k in keys + [h] <==> k in keys || k == h;
  }

  lemma PersistOnAll(store: map<Hash, ScheduleMessage>, entries: map<Hash, IntervalJob>, keys: seq<Hash>, mono: int)
    requires forall k :: k in entries ==> k in keys
    ensures PersistOn(store, entries, keys, mono) == PersistCounts(store, entries, mono)
  {
  }

  lemma IntervalStep(entries: map<Hash, IntervalJob>, keys: seq<Hash>, h: Hash, mono: int)
    requires forall k :: k in keys ==> k in entries
    requires h in entries
    ensures IntervalSends(entries, keys + [h], mono) == IntervalSends(entries, keys, mono) + IntervalFired(entries[h], mono)
    ensures CancelList(entries, keys + [h], mono)
            == CancelList(entries, keys, mono) + (if ActionOf(entries[h], mono) == Cancel then [h] else [])
  {
    assert (keys + [h])[..|keys|] == keys;
  }

  /** Every request the interval loop sends is that of a visited entry. */
  lemma {:induction false} IntervalSendsFrom(entries: map<Hash, IntervalJob>, keys: seq<Hash>, mono: int)
    requires forall k :: k in keys ==> k in entries
    ensures forall r :: r in IntervalSends(entries, keys, mono) ==>
              exists k :: k in keys && r.job == entries[k].msg
    decreases |keys|
  {
    if keys != [] {
      var init := keys[..|keys| - 1];
      IntervalSendsFrom(entries, init, mono);
      forall r | r in IntervalSends(entries, keys, mono)
        ensures exists k :: k in keys && r.job == entries[k].msg
      {
        if r in IntervalSends(entries, init, mono) {
          var k :| k in init && r.job == entries[k].msg;
          assert k in keys;
        } else {
          assert r.job == entries[keys[|keys| - 1]].msg;
        }
      }
    }
  }

  /**
   * In a table whose entries sit under their own keys, the interval loop
   * sends a visited entry's request exactly once if the entry runs (due,
   * with run count -1 or > 0) and not at all otherwise (not yet due, or
   * due with a run count <= 0 other than -1).
   */
  lemma {:induction false} IntervalSendsOnce(key: JobMessage -> Hash, entries: map<Hash, IntervalJob>,
                                             keys: seq<Hash>, mono: int, h: Hash)
    requires IntervalKeyed(key, entries)
    requires forall k :: k in keys ==> k in entries
    requires NoDups(keys) && h in keys
    ensures multiset(IntervalSends(entries, keys, mono))[Request(entries[h].msg, entries[h].queue)]
              == if Runs(ActionOf(entries[h], mono)) then 1 else 0
    decreases |keys|
  {
    var init := keys[..|keys| - 1];
    var last := keys[|keys| - 1];
    var req := Request(entries[h].msg, entries[h].queue);
    assert NoDups(init);
    if last == h {
      assert h !in init;
      IntervalSendsFrom(entries, init, mono);
      assert req !in IntervalSends(entries, init, mono);
    } else {
      assert h in init by {
        var i :| 0 <= i < |keys| && keys[i] == h;
        assert i < |keys| - 1;
        assert init[i] == h;
      }
      IntervalSendsOnce(key, entries, init, mono, h);
      assert key(entries[last].msg) == last;
      assert entries[last].msg != entries[h].msg;
    }
  }

  /**
   * A visited hash is queued for cancellation exactly when its entry is
   * due with a run count <= 0 other than -1; in particular an entry not
   * yet due is never queued.
   */
  lemma {:induction false} CancelListExactly(entries: map<Hash, IntervalJob>, keys: seq<Hash>, mono: int)
    requires forall k :: k in keys ==> k in entries
    ensures forall h :: h in CancelList(entries, keys, mono) <==> h in keys && ActionOf(entries[h], mono) == Cancel
    decreases |keys|
  {
    if keys != [] {
      var init := keys[..|keys| - 1];
      CancelListExactly(entries, init, mono);
      forall h | h in keys
        ensures h == keys[|keys| - 1] || h in init
      {
        var i :| 0 <= i < |keys| && keys[i] == h;
        if i < |keys| - 1 {
          assert init[i] == h;
        }
      }
    }
  }

  /**
   * A due entry with run count n > 0 has its stored headers rewritten so
   * that they read back as n - 1 (when they carried a `run_count:` field),
   * and the rest of the stored request is kept.
   */
  lemma PersistedCountDecrements(store: map<Hash, ScheduleMessage>, entries: map<Hash, IntervalJob>,
                                 mono: int, h: Hash)
    requires h in store && h in entries
    requires entries[h].next <= mono && entries[h].runCount > 0
    requires exists k :: 0 <= k < |Split(store[h].headers, ',')| && Tagged(Split(store[h].headers, ',')[k])
    ensures h in PersistCounts(store, entries, mono)
    ensures RunCountOf(PersistCounts(store, entries, mono)[h].headers) == Ok(entries[h].runCount - 1)
    ensures PersistCounts(store, entries, mono)[h].(headers := store[h].headers) == store[h]
  {
    assert PersistCounts(store, entries, mono)[h]
           == store[h].(headers := RewrittenHeaders(store[h].headers, entries[h].runCount - 1));
    RewriteGuarantees(store[h].headers, entries[h].runCount - 1);
  }

  /** A pass keeps every entry under the key of its own message. */
  lemma CronAfterKeyed(key: JobMessage -> Hash, entries: map<Hash, CronJob>, ts: int)
    requires CronKeyed(key, entries)
    ensures CronKeyed(key, CronAfterAll(entries, ts))
  {
  }

  lemma IntervalAfterKeyed(key: JobMessage -> Hash, entries: map<Hash, IntervalJob>, mono: int)
    requires IntervalKeyed(key, entries)
    ensures IntervalKeyed(key, IntervalAfterAll(entries, mono))
  {
  }

  /** The cron loop's visit of position `i` of a duplicate-free key list. */
  lemma CronVisit(entries: map<Hash, CronJob>, order: seq<Hash>, i: nat, ts: int)
    requires NoDups(order) && i < |order|
    requires forall k :: k in order ==> k in entries
    ensures order[i] !in order[..i]
    ensures order[i] in CronAfterOn(entries, order[..i], ts)
            && CronAfterOn(entries, order[..i], ts)[order[i]] == entries[order[i]]
    ensures CronAfterOn(entries, order[..i + 1], ts)
            == CronAfterOn(entries, order[..i], ts)[order[i] := CronAfter(entries[order[i]], ts)]
    ensures CronSends(entries, order[..i + 1], ts) == CronSends(entries, order[..i], ts) + CronFired(entries[order[i]], ts)
  {
    assert order[..i + 1] == order[..i] + [order[i]];
    NoDupsPrefix(order, i);
    CronAfterStep(entries, order[..i], order[i], ts);
    CronSendsStep(entries, order[..i], order[i], ts);
  }

  /** The interval loop's visit of position `i` of a duplicate-free key list. */
  lemma IntervalVisit(store: map<Hash, ScheduleMessage>, entries: map<Hash, IntervalJob>, order: seq<Hash>, i: nat, mono: int)
    requires NoDups(order) && i < |order|
    requires forall k :: k in order ==> k in entries
    ensures order[i] !in order[..i]
    ensures order[i] in IntervalAfterOn(entries, order[..i], mono)
            && IntervalAfterOn(entries, order[..i], mono)[order[i]] == entries[order[i]]
    ensures order[i] in store <==> order[i] in PersistOn(store, entries, order[..i], mono)
    ensures order[i] in store ==> PersistOn(store, entries, order[..i], mono)[order[i]] == store[order[i]]
    ensures IntervalAfterOn(entries, order[..i + 1], mono)
            == IntervalAfterOn(entries, order[..i], mono)[order[i] := IntervalAfter(entries[order[i]], mono)]
    ensures IntervalSends(entries, order[..i + 1], mono)
            == IntervalSends(entries, order[..i], mono) + IntervalFired(entries[order[i]], mono)
    ensures CancelList(entries, order[..i + 1], mono)
            == CancelList(entries, order[..i], mono) + (if ActionOf(entries[order[i]], mono) == Cancel then [order[i]] else [])
    ensures order[i] in store ==>
              PersistOn(store, entries, order[..i + 1], mono)
              == PersistOn(store, entries, order[..i], mono)[order[i] := PersistOne(store[order[i]], entries[order[i]], mono)]
    ensures order[i] !in store ==>
              PersistOn(store, entries, order[..i + 1], mono) == PersistOn(store, entries, order[..i], mono)
  {
    assert order[..i + 1] == order[..i] + [order[i]];
    NoDupsPrefix(order, i);
    IntervalStep(entries, order[..i], order[i], mono);
    IntervalAfterStep(entries, order[..i], order[i], mono);
    PersistStep(store, entries, order[..i], order[i], mono);
  }

  // ---- cancel loop ----

  /** The interval table, store, index list and outcome after the cancel loop. */
  datatype CancelState = CancelState(
    interval: Dict<IntervalJob>, store: map<Hash, ScheduleMessage>, index: seq<Hash>, outcome: Outcome)

  /**
   * The cancel loop as written: every iteration deletes `last` (the hash
   * the interval loop visited last), not the queued hash. The first
   * iteration removes it from the store, the index list and the table; a
   * second iteration finds it gone from the table and raises KeyError.
   */
  function CancelAsWritten(d: Dict<IntervalJob>, store: map<Hash, ScheduleMessage>, index: seq<Hash>,
                           cancel: seq<Hash>, last: Hash): (r: CancelState)
    ensures Valid(d) ==> Valid(r.interval)
    ensures r.outcome.Failed? ==> r.outcome.error == KeyError
  {
    if cancel == [] then CancelState(d, store, index, Done)
    else if last !in d.entries then CancelState(d, store - {last}, Without(index, last), Failed(KeyError))
    else CancelState(Pop(d, last), store - {last}, Without(index, last),
                     if |cancel| >= 2 then Failed(KeyError) else Done)
  }

  /**
   * Whatever is queued, the cancel loop as written deletes the hash
   * visited last and only that one, from the table, the store and the
   * index list; it raises KeyError exactly when two or more hashes were
   * queued.
   */
  lemma CancelDeletesLast(d: Dict<IntervalJob>, store: map<Hash, ScheduleMessage>, index: seq<Hash>,
                          cancel: seq<Hash>, last: Hash)
    requires cancel != [] && last in d.entries
    ensures CancelAsWritten(d, store, index, cancel, last).interval == Pop(d, last)
    ensures CancelAsWritten(d, store, index, cancel, last).interval.entries == d.entries - {last}
    ensures CancelAsWritten(d, store, index, cancel, last).store == store - {last}
    ensures CancelAsWritten(d, store, index, cancel, last).index == Without(index, last)
    ensures CancelAsWritten(d, store, index, cancel, last).outcome.Failed? <==> |cancel| >= 2
  {
  }

  /** Queued hashes are visited hashes, so a non-empty queue means a non-empty table. */
  lemma CancelListInKeys(entries: map<Hash, IntervalJob>, keys: seq<Hash>, mono: int)
    requires forall k :: k in keys ==> k in entries
    ensures CancelList(entries, keys, mono) != [] ==> keys != []
  {
    if keys == [] {
      assert CancelList(entries, keys, mono) == [];
    }
  }
}
