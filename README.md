# eventmq scheduler: job tables, in Dafny

This project models the job-table logic of the eventmq scheduler
(`eventmq/scheduler.py`). The scheduler keeps two in-memory tables keyed by
a job hash:

- `interval_jobs`: hash to next monotonic time, job message, interval
  iterator, queue and run count;
- `cron_jobs`: hash to next timestamp, job message, cron iterator and queue.

It mirrors every scheduled request into Redis: one key per hash holds the
request, and the list `'interval_jobs'` indexes the hashes. The model
covers the following:

- reading the `run_count:` header and rewriting it;
- the job key (`schedule_hash`);
- SCHEDULE handling (`on_schedule`), including haste mode;
- UNSCHEDULE handling (`unschedule_job`);
- restoring the tables from Redis at start-up (`load_jobs`,
  `load_job_from_redis`);
- one pass of the event loop over the tables: the cron loop, the interval
  loop with its run-count bookkeeping, and the cancel loop.

Modules, one per file:

- `Outcomes` (`outcomes.dfy`): `Option`, the Python exceptions that escape
  (`ValueError`, `KeyError`, `IndexError`), `Result` and `Outcome`.
- `Text` (`text.dfy`): Python's `p in s`, `str.split`, `str.join`,
  `int(s)` and `'{}'.format(n)` on strings.
- `Headers` (`headers.dfy`): `get_run_count_from_headers` and the header
  rewrite that persists a decremented count.
- `Messages` (`messages.dfy`): the SCHEDULE frames, the job message and
  the sorted-key JSON text that is hashed. The sha1 digest is a function
  parameter.
- `Dicts` (`dicts.dfy`): a Python `dict` with its insertion order. The
  cancel-loop defect depends on that order. It also models Redis `LREM`
  as removal of every occurrence.
- `Jobs` (`jobs.dfy`): the table entries and the schedule-time iterators.
  An iterator is the whole sequence of times it yields, plus a cursor. The
  clock readings and the iterator factories form an `Env` value.
- `Restoring` (`restore.dfy`): `load_job_from_redis` and `load_jobs` as
  functions.
- `Ticking` (`tick.dfy`): what one pass of the loops does to each entry,
  to the store and to the log of sent requests, as the code is written.
- `Scheduling` (`scheduler.dfy`): the `Scheduler` class. Its fields are
  the two tables, the store map, the index list and a ghost log of the
  requests sent to the broker. Its methods loop over the tables as the
  source does and are proved against the functions of `Ticking` and
  `Restoring`.
- `Findings` (`findings.dfy`): four defects of the source. Each has the
  code as written, an input that exposes it, and a corrected definition
  with the intended property proved.

The event loop is modelled as written, not as its comments describe it:

- The time drawn from an iterator is never stored back into the entry.
- The decremented run count is never stored back into the entry.
- The iterator objects are shared with the entries, so drawing a time
  does move them on.
- The cancel loop deletes the hash the interval loop visited last.

The corrected behaviour lives in `Findings` next to the as-written
behaviour. The class keeps the code's behaviour.

## Model

| member | source | states |
|---|---|---|
| Headers.GetRunCountFromHeaders | eventmq/scheduler.py:469-474 | The loop returns exactly what `RunCountOf` defines. That is `int` of the text between the first and second colon (`split(':')[1]`) of the last field containing `run_count:`, starting from -1. A tagged field whose value is not an integer raises ValueError. |
| Headers.RunCountDefault | eventmq/scheduler.py:469-474 | When no comma-separated field contains `run_count:`, the result is `INFINITE_RUN_COUNT` (-1). |
| Headers.RunCountLastTagged | eventmq/scheduler.py:471-473 | When every tagged field parses, the last tagged field decides the result, whatever the earlier ones hold. |
| Headers.RunCountRaises | eventmq/scheduler.py:471-473 | Reading raises exactly when some tagged field's value is not an integer, and the exception is ValueError. |
| Headers.RewriteRunCount | eventmq/scheduler.py:232-239 | The rewrite loop produces the headers with every tagged field replaced by `run_count:<n>`, re-joined with commas. |
| Headers.WrittenFieldReadsBack | eventmq/scheduler.py:234-236 | A written `run_count:<n>` field contains the tag, contains no comma, and reads back as `n`. |
| Headers.RewriteGuarantees | eventmq/scheduler.py:232-239 | The rewrite keeps the number of fields and every untagged field, and writes `run_count:<n>` into each tagged field. The result reads back as `n` when some field was tagged, and the headers are unchanged when none was. |
| Messages.SameIdentitySameKey | eventmq/scheduler.py:495-523 | Two requests whose jobs agree on args, kwargs, class_args, class_kwargs, path and callable get the same key. Queue, headers, interval, cron, command and other body keys do not matter. |
| Messages.ScheduleHash | eventmq/scheduler.py:495-525 | The key is the digest of the sorted-key JSON of the job's six identifying fields. Every request whose job agrees with this one on those six fields gets the same key. |
| Messages.JsonMembersAgree | eventmq/scheduler.py:511-519 | The sorted-key JSON text depends only on the hashed fields' values. |
| Jobs.NewIntervalJob | eventmq/scheduler.py:418-426 | A new interval entry has the iterator's first time as its next time, with the iterator positioned just past it. It carries the message, queue and run count given. |
| Jobs.NewCronJob | eventmq/scheduler.py:431-440 | A new cron entry takes the first cron time, or the second one when the first is not after the timestamp. The iterator is positioned just past the time taken. |
| Dicts.Without | eventmq/scheduler.py:348 | `LREM` with count 0 leaves exactly the elements different from the removed value. |
| Dicts.Put | eventmq/scheduler.py:420-426 | Assigning a dict key updates that entry only. An existing key keeps its position, a new key goes to the end of the order, and the order stays duplicate-free. |
| Dicts.Pop | eventmq/scheduler.py:335 | `pop`/`del` removes exactly that key from the entries and from the order, where every other key keeps its place. |
| Restoring.Restore | eventmq/scheduler.py:355-390 | `load_job_from_redis` raises exactly when the interval is not an integer, or when it is non-negative and the run count is malformed. A non-negative interval files a new interval entry with the request's queue and header run count. Interval -1 with a cron expression files a new cron entry with the queue. Any other interval files nothing. No other hash's entry changes, and entries stay under their own keys. |
| Restoring.RestoreAllBacked | eventmq/scheduler.py:121-140 | Restoring from a store whose requests sit under their own keys backs every interval entry by a stored non-negative interval and every cron entry by a stored interval of -1. It adds only hashes of the index list. |
| Restoring.RestoredTablesDisjoint | eventmq/scheduler.py:121-140 | From empty tables, a consistent store puts every restored job in exactly one table, and only jobs that are both indexed and stored. |
| Restoring.RestoreAllKeeps | eventmq/scheduler.py:121-140 | Restoring a list of hashes leaves every hash outside the list exactly as it was, in both tables. |
| Restoring.RestoreAllComplete | eventmq/scheduler.py:121-140 | When every indexed stored request restores without raising, every one is loaded. One with a non-negative interval is in the interval table with its queue and header run count. One with interval -1 and a cron expression is in the cron table with its queue. |
| Ticking.CronSendsExactly | eventmq/scheduler.py:174-190 | The cron loop sends a request for an entry exactly when the entry is due, and every request it sends comes from a due entry. |
| Ticking.IntervalSendsOnce | eventmq/scheduler.py:201-253 | In one pass each interval entry's request is sent exactly once if it is due with run count -1 or above 0. It is not sent if it is not yet due, or if it is due with a run count of 0 or below other than -1. |
| Ticking.IntervalSendsFrom | eventmq/scheduler.py:201-253 | Every request the interval loop sends belongs to a visited entry. |
| Ticking.CancelListExactly | eventmq/scheduler.py:219-224 | A hash is queued for cancellation exactly when its entry is due with a run count of 0 or below other than -1. An entry that is not yet due is never queued. |
| Ticking.PersistedCountDecrements | eventmq/scheduler.py:226-241 | For a due entry with run count n > 0, the stored headers are rewritten to read back as n - 1, and the rest of the stored request is kept. |
| Ticking.CancelAsWritten | eventmq/scheduler.py:257-267 | The cancel loop as written keeps the table valid, and any exception it raises is KeyError. |
| Ticking.CancelDeletesLast | eventmq/scheduler.py:257-267 | Whatever is queued, the cancel loop as written deletes the hash visited last and only that one, from the table, the store and the index list. It raises KeyError exactly when two or more hashes were queued. |
| Scheduling.CronPass | eventmq/scheduler.py:174-195 | The cron loop leaves the table with each due entry's iterator moved on and its next time kept. It sends `CronSends` in table order. |
| Scheduling.VisitIntervalJob | eventmq/scheduler.py:202-253 | One interval entry's branch. It sends when running, queues the hash when cancelling, and rewrites the stored headers when the run is counted. The entry only advances its iterator. |
| Scheduling.IntervalPass | eventmq/scheduler.py:197-253 | The interval loop yields the advanced table, the persisted counts, the requests in table order and the cancellation list. `job_hash` ends as the last hash in table order. |
| Scheduling.FileJob | eventmq/scheduler.py:417-443 | A non-negative interval assigns the new interval entry (a new hash goes to the end of the table's order) and pops the hash from the cron table. A negative interval assigns a cron entry with queue `None` and pops the hash from the interval table. Both whole tables, with their order, are given. |
| Scheduling.Haste | eventmq/scheduler.py:460-467 | Without `nohaste` in the headers, a request is sent exactly when the run count is -1 or above 0. Only a positive count of an interval job is decremented, by one. The table's keys and order are kept. |
| Scheduling.FileAndHaste | eventmq/scheduler.py:405-467 | The hash ends up in exactly one table. Both whole tables are given, including their order. The interval entry's count is the header count, less one when haste mode sent it. Keying and disjointness are preserved. |
| Scheduling.ScheduleParsed | eventmq/scheduler.py:403-467 | This gives both whole tables as `FileAndHaste` does. With Redis replies read as text, the index list gains the hash at its head only when it is new, and stays duplicate-free. The store holds the request. |
| Scheduling.Unfile | eventmq/scheduler.py:333-341 | The hash is popped from the interval table if present, otherwise from the cron table. Every other entry keeps its value and its place in the order. |
| Scheduling.Forget | eventmq/scheduler.py:345-349 | A stored hash is deleted together with every occurrence in the index list. The index list stays duplicate-free. |
| Scheduling.Scheduler.constructor | eventmq/scheduler.py:100-115 | The tables start empty and are restored from the store, so `RestoreAllComplete` and `RestoredTablesDisjoint` apply to them. Each job's key is the digest of its sorted-key JSON. A consistent store leaves every job in exactly one table. |
| Scheduling.Scheduler.LoadJobs | eventmq/scheduler.py:121-140 | The tables become `RestoreAll` of the index list, stopping at the first exception. The store, the index list and the sent log are unchanged. |
| Scheduling.Scheduler.LoadJobFromStore | eventmq/scheduler.py:355-390 | The tables change exactly as `Restore` says. An exception leaves them untouched. |
| Scheduling.Scheduler.ScheduleJob | eventmq/scheduler.py:403-467 | This gives the whole new state after SCHEDULE: both tables with their order, the index list, the store and the sent log. It also states the exactly-one-table property. |
| Scheduling.Scheduler.OnSchedule | eventmq/scheduler.py:392-467 | A malformed interval or run count raises ValueError with nothing changed. Otherwise the state is that of `ScheduleJob` with the parsed values. |
| Scheduling.Scheduler.UnscheduleJob | eventmq/scheduler.py:327-353 | The hash is popped from the interval table if present, otherwise from the cron table. Every other entry keeps its value and position. The store and the index list forget it, and nothing is sent. |
| Scheduling.Scheduler.FireCronJobs | eventmq/scheduler.py:174-195 | The cron table is replaced by `CronAfterAll`, the log grows by `CronSends`, and nothing else changes. |
| Scheduling.Scheduler.FireIntervalJobs | eventmq/scheduler.py:197-253 | The interval table advances, the store receives the persisted counts, the log grows by `IntervalSends`, and the cancellation list and last hash are returned. |
| Scheduling.Scheduler.CancelJobs | eventmq/scheduler.py:257-267 | The table, store, index list and outcome are exactly `CancelAsWritten`. |
| Scheduling.Scheduler.Tick | eventmq/scheduler.py:174-267 | One pass gives the new state of both tables, the store and the index list. It appends the cron requests and then the interval requests to the log, preserves disjointness, and leaves an empty interval table alone. |
| Findings.RunsAsWrittenRepeat | eventmq/scheduler.py:201-253 | As written, a due entry alone in the interval table that runs is sent on every tick at the same time, whatever its run count. (With other entries, the cancel loop may delete it as the hash visited last.) |
| Findings.IntervalOverrun | eventmq/scheduler.py:221-248 | A due entry with run count 1, alone in the interval table and ticked twice, is sent twice as written and at most once as intended. |
| Findings.FixedIntervalAfter | eventmq/scheduler.py:226-248 | A run stores the drawn time and, for a counted run, the decremented count. |
| Findings.FixedRunsBounded | eventmq/scheduler.py:219-248 | As intended, an entry with run count n >= 0 is sent at most n times over any ticks. |
| Findings.FixedIntervalAdvances | eventmq/scheduler.py:248-253 | As intended, a run moves the entry's next time strictly forward along an increasing schedule. |
| Findings.CronRefires | eventmq/scheduler.py:185-193 | As written, a cron entry that fired fires again at every later timestamp. |
| Findings.FixedCronAfter | eventmq/scheduler.py:192-193 | As intended, a due cron entry stores the next time its iterator yields. |
| Findings.FixedCronAdvances | eventmq/scheduler.py:192-193 | As intended, firing moves a cron entry to a strictly later time of its schedule. |
| Findings.FixedCronWaits | eventmq/scheduler.py:185-193 | As intended, a fired cron entry stays silent until its next scheduled time. |
| Findings.FixedCancel | eventmq/scheduler.py:257-267 | This is the cancel loop deleting the queued hash. It keeps the table valid, and its only exception is KeyError. |
| Findings.FixedCancelRemovesQueued | eventmq/scheduler.py:257-267 | Distinct queued hashes leave the table, the store and the index list, nothing else does, and nothing raises. |
| Findings.CancelListNoDups | eventmq/scheduler.py:197-224 | The cancellation list built over a duplicate-free order is duplicate-free. |
| Findings.FixedCancelAfterPass | eventmq/scheduler.py:213-267 | After a pass, the intended cancel loop removes exactly the entries due with a run count of 0 or below other than -1, and raises nothing. |
| Findings.CancelDeletesWrongJob | eventmq/scheduler.py:257-267 | The table is visited in the order `a`, `b`, with `a` due at count 0 and `b` not due. As written, `b` is deleted and `a` is kept. As intended, the reverse happens. Two queued hashes raise KeyError as written. |
| Findings.AdminGuardRaises | eventmq/scheduler.py:162-164 | As written, the admin check raises IndexError exactly on a five-frame STATUS message. |
| Findings.AdminRepliesAsWritten | eventmq/scheduler.py:162-164 | As written, the admin check raises only IndexError and only on five frames. It replies only when frame 3 is the status command and frame 5 asks for the scheduled jobs. |
| Findings.AdminReplies | eventmq/scheduler.py:162-164 | The corrected check gives a five-frame STATUS message no reply instead of an exception. Wherever the written check does not raise, the two agree. |

## Left out

- Redis failures: connection errors and other exceptions the code catches
  and logs are not modelled. Every store call succeeds, and a missing key
  on the interval loop's `get` leaves the store unchanged, as the caught
  exception does. `redis.save()` and `get_scheduled_jobs` are not
  modelled either.
- Sockets, the poller, heartbeats, DISCONNECT/KBYE handling, settings,
  signal handlers and logging are not modelled. A sent request is an entry
  of a ghost log.
- `croniter` and `IntervalIter` are external libraries. An iterator is an
  arbitrary sequence of times with a cursor. Cron-expression parsing and
  its errors are not modelled. Strictly increasing schedules are
  hypotheses of the lemmas that need them.
- Wall-clock time `int(timestamp())` and `monotonic()` are parameters of
  the tick and of `Env`. `monotonic()` and the times `IntervalIter`
  yields are floats in the source, but they are integers here. Only `<=`
  comparisons between these times and the next times of the entries
  depend on them.
- sha1 is a function parameter. The JSON of each hashed field's value is
  given as text, and JSON decoding and encoding of messages is not
  modelled. A body that lacks one of the six hashed keys, which raises
  KeyError in `schedule_hash`, cannot be represented.
- Python `int()` is modelled for ASCII whitespace, an optional sign and
  ASCII digits. Underscores and non-ASCII digits are not accepted.
- Bytes versus text for the queue name is not modelled:
  `load_job_from_redis` encodes the queue, `on_schedule` does not.
- `eventmq/constants.py` is not part of this model: the admin command
  values are parameters of the `Findings` admin functions.
- Scheduling.Scheduler.FireIntervalJobs: the returned `job_hash` is stated
  only for a non-empty table. With an empty table the cancel list is
  empty and `job_hash` is never read.
- Scheduling.Scheduler.Tick: the cancel loop's state is stated only for a
  non-empty interval table. The model does not carry `job_hash` over from
  an earlier pass: it starts empty.
- Scheduling.ScheduleParsed: Redis replies are modelled as text, so the
  test of the new hash against `lrange('interval_jobs', 0, -1)`
  (eventmq/scheduler.py:447-448) can match, and the index list gains the
  hash only when it is new. The client made at lines 277-281 does not
  decode replies, so under Python 3 `lrange` returns bytes, the test never
  matches, and every SCHEDULE pushes the hash again. The index list can
  then hold duplicates. These are harmless: `load_jobs` restores the same
  entry again, and `lrem` with count 0 removes every copy.
- Scheduling.Scheduler.ScheduleJob: its index list is stated for text
  replies, as for `Scheduling.ScheduleParsed` above.
- Scheduling.Scheduler.OnSchedule: its index list is stated for text
  replies, as for `Scheduling.ScheduleParsed` above.

## Findings

| source | as written | input that shows it | evidently intended | confidence | as-written member | corrected member |
|---|---|---|---|---|---|---|
| eventmq/scheduler.py:227-253 | the interval loop assigns the drawn time and the decremented count to locals only | a due entry with run count 1, alone in the interval table, ticked twice at the same monotonic time, is sent twice | store the next time and the decremented count in the entry, so a count of n means at most n runs | high, not executed | Findings.IntervalOverrun | Findings.FixedRunsBounded |
| eventmq/scheduler.py:185-193 | the cron loop assigns the drawn time to a local only | a due cron entry fires again at every later timestamp | store the next cron time, so an entry fires once per scheduled time | high, not executed | Findings.CronRefires | Findings.FixedCronAdvances |
| eventmq/scheduler.py:257-267 | the cancel loop deletes `job_hash`, the hash visited last, on every iteration | table order `a`, `b`, with `a` due at run count 0 and `b` not due: `b` is deleted and `a` kept; two queued hashes raise KeyError | delete each queued hash `job` | high, not executed | Ticking.CancelDeletesLast | Findings.FixedCancelAfterPass |
| eventmq/scheduler.py:162-164 | the guard checks `len(msg) > 4` and then reads `msg[5]` | a five-frame message whose frame 3 is the status command raises IndexError | check for six frames before reading frame 5 | high, not executed | Findings.AdminGuardRaises | Findings.AdminReplies |
