/**
 * The frames of a SCHEDULE request, the job message it carries, and the
 * key under which the scheduler files the job.
 */
module Messages {
  import opened Outcomes

  /** The hexadecimal sha1 digest that keys both job tables and the store. */
  type Hash = string

  /**
   * The body of a job message. The six identifying fields hold the JSON
   * text of their values; `other` holds any further keys of the body.
   */
  datatype JobBody = JobBody(
    args: string, kwargs: string, classArgs: string, classKwargs: string,
    path: string, callable: string, other: map<string, string>)

  /** The decoded fourth frame of a SCHEDULE request: `[command, body]`. */
  datatype JobMessage = JobMessage(command: string, body: JobBody)

  /** A SCHEDULE (or UNSCHEDULE) request's frames: queue, headers, interval, job, cron. */
  datatype ScheduleMessage = ScheduleMessage(
    queue: string, headers: string, interval: string, job: JobMessage, cron: string)

  /** A request sent to the broker: the job message and the queue it names (`None` for no queue). */
  datatype Request = Request(job: JobMessage, queue: Option<string>)

  /** The six keys of a job body that take part in its hash. */
  datatype Field = Args | Callable | ClassArgs | ClassKwargs | Kwargs | Path

  function FieldName(f: Field): string
  {
    match f
    case Args => "args"
    case Callable => "callable"
    case ClassArgs => "class_args"
    case ClassKwargs => "class_kwargs"
    case Kwargs => "kwargs"
    case Path => "path"
  }

  function FieldValue(b: JobBody, f: Field): string
  {
    match f
    case Args => b.args
    case Callable => b.callable
    case ClassArgs => b.classArgs
    case ClassKwargs => b.classKwargs
    case Kwargs => b.kwargs
    case Path => b.path
  }

  /** The hashed keys in the order `sort_keys=True` writes them. */
  const HASHED_FIELDS: seq<Field> := [Args, Callable, ClassArgs, ClassKwargs, Kwargs, Path]

  /** The members `"key": value` of a JSON object, separated by `, ` as `json.dumps` writes them. */
  function JsonMembers(b: JobBody, fields: seq<Field>): string
    decreases |fields|
  {
    if fields == [] then ""
    else
      var member := "\"" + FieldName(fields[0]) + "\": " + FieldValue(b, fields[0]);
      if |fields| == 1 then member else member + ", " + JsonMembers(b, fields[1..])
  }

  /** The text hashed for a job: `json.dumps` of the six identifying fields with sorted keys. */
  function HashItems(b: JobBody): string
  {
    "{" + JsonMembers(b, HASHED_FIELDS) + "}"
  }

  /** Bodies that agree on the listed fields encode them alike. */
  lemma {:induction false} JsonMembersAgree(b1: JobBody, b2: JobBody, fields: seq<Field>)
    requires forall k :: 0 <= k < |fields| ==> FieldValue(b1, fields[k]) == FieldValue(b2, fields[k])
    ensures JsonMembers(b1, fields) == JsonMembers(b2, fields)
    decreases |fields|
  {
    if fields != [] {
      JsonMembersAgree(b1, b2, fields[1..]);
    }
  }

  /** The key of a job message under a digest function (sha1 hexdigest in the source). */
  function JobKey(digest: string -> Hash, job: JobMessage): Hash
  {
    digest(HashItems(job.body))
  }

  /** The six identifying fields of a request's job body agree. */
  predicate SameIdentity(m1: ScheduleMessage, m2: ScheduleMessage)
  {
    var b1, b2 := m1.job.body, m2.job.body;
    b1.args == b2.args && b1.kwargs == b2.kwargs && b1.classArgs == b2.classArgs
    && b1.classKwargs == b2.classKwargs && b1.path == b2.path && b1.callable == b2.callable
  }

  /** Requests that agree on the six identifying fields have jobs with the same key. */
  lemma SameIdentityKeys(digest: string -> Hash, m: ScheduleMessage)
    ensures forall m2 :: SameIdentity(m, m2) ==> JobKey(digest, m2.job) == JobKey(digest, m.job)
  {
    forall m2 | SameIdentity(m, m2)
      ensures JobKey(digest, m2.job) == JobKey(digest, m.job)
    {
      var b1, b2 := m.job.body, m2.job.body;
      forall k | 0 <= k < |HASHED_FIELDS|
        ensures FieldValue(b1, HASHED_FIELDS[k]) == FieldValue(b2, HASHED_FIELDS[k])
      {
      }
      JsonMembersAgree(b1, b2, HASHED_FIELDS);
    }
  }

  /**
   * `Scheduler.schedule_hash(message)`: the digest of the job's sorted-key
   * JSON, shared by every request that agrees on the six identifying
   * fields.
   */
  function ScheduleHash(digest: string -> Hash, m: ScheduleMessage): (r: Hash)
    ensures forall m2 :: SameIdentity(m, m2) ==> JobKey(digest, m2.job) == r
  {
    SameIdentityKeys(digest, m);
    JobKey(digest, m.job)
  }

  /**
   * Two requests whose jobs agree on the six identifying fields have the
   * same key, whatever their queue, headers, interval, cron, command or
   * other body keys: scheduling one replaces the other's entry.
   */
  lemma SameIdentitySameKey(digest: string -> Hash, m1: ScheduleMessage, m2: ScheduleMessage)
    requires SameIdentity(m1, m2)
    ensures ScheduleHash(digest, m1) == ScheduleHash(digest, m2)
  {
    SameIdentityKeys(digest, m1);
  }
}
