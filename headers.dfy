/**
 * The `run_count:` header of a SCHEDULE request: how many more times an
 * interval job may run. The headers frame is a comma-separated list of
 * fields; a field that contains `run_count:` carries the count between
 * its first and second colon (`field.split(':')[1]`).
 */
module Headers {
  import opened Outcomes
  import opened Text

  /** A job whose headers carry no run count runs forever. */
  const INFINITE_RUN_COUNT: int := -1

  /** The marker searched for in each field with Python's `in`. */
  const RUN_COUNT_TAG: string := "run_count:"

  predicate Tagged(field: string)
  {
    Contains(field, RUN_COUNT_TAG)
  }

  /** `field.split(':')[1]`; a tagged field holds a colon, so the index is in range. */
  function ValueText(field: string): string
    requires Tagged(field)
  {
    ContainsChar(field, RUN_COUNT_TAG, 9);
    SplitAtLeastTwo(field, ':');
    Split(field, ':')[1]
  }

  /** `int(field.split(':')[1])` for a tagged field. */
  function FieldCount(field: string): Result<int>
    requires Tagged(field)
  {
    match ParseInt(ValueText(field))
    case Some(v) => Ok(v)
    case None => Raised(ValueError)
  }

  /** The loop of `get_run_count_from_headers` over the remaining fields, with the count so far. */
  function RunCountFrom(fields: seq<string>, acc: int): Result<int>
    decreases |fields|
  {
    if fields == [] then Ok(acc)
    else if Tagged(fields[0]) then
      match FieldCount(fields[0])
      case Ok(v) => RunCountFrom(fields[1..], v)
      case Raised(e) => Raised(e)
    else RunCountFrom(fields[1..], acc)
  }

  /** What `get_run_count_from_headers(headers)` returns or raises. */
  function RunCountOf(headers: string): Result<int>
  {
    RunCountFrom(Split(headers, ','), INFINITE_RUN_COUNT)
  }

  /** `get_run_count_from_headers`: the loop over the comma-separated fields. */
  method GetRunCountFromHeaders(headers: string) returns (r: Result<int>)
    ensures r == RunCountOf(headers)
  {
    var fields := Split(headers, ',');
    var runCount := INFINITE_RUN_COUNT;
    var i := 0;
    while i < |fields|
      invariant 0 <= i <= |fields|
      invariant RunCountFrom(fields[i..], runCount) == RunCountOf(headers)
    {
      assert fields[i..][1..] == fields[i + 1..];
      if Tagged(fields[i]) {
        var parsed := ParseInt(ValueText(fields[i]));
        if parsed.None? {
          return Raised(ValueError);
        }
        runCount := parsed.value;
      }
      i := i + 1;
    }
    r := Ok(runCount);
  }

  /** With no tagged field the count passed in comes back unchanged. */
  lemma {:induction false} RunCountUntagged(fields: seq<string>, acc: int)
    requires forall k :: 0 <= k < |fields| ==> !Tagged(fields[k])
    ensures RunCountFrom(fields, acc) == Ok(acc)
    decreases |fields|
  {
    if fields != [] {
      RunCountUntagged(fields[1..], acc);
    }
  }

  /** Headers without a `run_count:` field mean an infinite run count. */
  lemma RunCountDefault(headers: string)
    requires forall k :: 0 <= k < |Split(headers, ',')| ==> !Tagged(Split(headers, ',')[k])
    ensures RunCountOf(headers) == Ok(INFINITE_RUN_COUNT)
  {
    RunCountUntagged(Split(headers, ','), INFINITE_RUN_COUNT);
  }

  /** When every tagged field parses, the last tagged field decides the count. */
  lemma {:induction false} RunCountLastTagged(fields: seq<string>, acc: int, j: nat)
    requires j < |fields| && Tagged(fields[j])
    requires forall k :: j < k < |fields| ==> !Tagged(fields[k])
    requires forall k :: 0 <= k < |fields| && Tagged(fields[k]) ==> FieldCount(fields[k]).Ok?
    ensures RunCountFrom(fields, acc) == FieldCount(fields[j])
    decreases |fields|
  {
    if j == 0 {
      RunCountUntagged(fields[1..], FieldCount(fields[0]).value);
    } else {
      var next := if Tagged(fields[0]) then FieldCount(fields[0]).value else acc;
      RunCountLastTagged(fields[1..], next, j - 1);
    }
  }

  /** The fold raises exactly when some tagged field does not hold an integer, and then raises ValueError. */
  lemma {:induction false} RunCountRaises(fields: seq<string>, acc: int)
    ensures RunCountFrom(fields, acc).Raised? <==>
              exists k :: 0 <= k < |fields| && Tagged(fields[k]) && FieldCount(fields[k]).Raised?
    ensures RunCountFrom(fields, acc).Raised? ==> RunCountFrom(fields, acc).error == ValueError
    decreases |fields|
  {
    if fields != [] {
      var next := if Tagged(fields[0]) && FieldCount(fields[0]).Ok? then FieldCount(fields[0]).value else acc;
      RunCountRaises(fields[1..], next);
      if exists k :: 0 <= k < |fields[1..]| && Tagged(fields[1..][k]) && FieldCount(fields[1..][k]).Raised? {
        var k :| 0 <= k < |fields[1..]| && Tagged(fields[1..][k]) && FieldCount(fields[1..][k]).Raised?;
        assert fields[k + 1] == fields[1..][k];
      }
      if exists k :: 0 <= k < |fields| && Tagged(fields[k]) && FieldCount(fields[k]).Raised? {
        var k :| 0 <= k < |fields| && Tagged(fields[k]) && FieldCount(fields[k]).Raised?;
        if k > 0 {
          assert fields[1..][k - 1] == fields[k];
        }
      }
    }
  }

  /** One field after the rewrite at `scheduler.py:234-238`. */
  function RewriteField(field: string, n: int): string
  {
    if Tagged(field) then RUN_COUNT_TAG + IntToString(n) else field
  }

  function RewriteFields(fields: seq<string>, n: int): (r: seq<string>)
    ensures |r| == |fields|
    ensures forall k :: 0 <= k < |fields| ==> r[k] == RewriteField(fields[k], n)
    decreases |fields|
  {
    if fields == [] then [] else [RewriteField(fields[0], n)] + RewriteFields(fields[1..], n)
  }

  /** The headers after every tagged field is replaced by `run_count:<n>`. */
  function RewrittenHeaders(headers: string, n: int): string
  {
    Join(RewriteFields(Split(headers, ','), n), ',')
  }

  /** The header rewrite before the decremented count is persisted. */
  method RewriteRunCount(headers: string, n: int) returns (r: string)
    ensures r == RewrittenHeaders(headers, n)
  {
    var fields := Split(headers, ',');
    var newHeaders: seq<string> := [];
    var i := 0;
    while i < |fields|
      invariant 0 <= i <= |fields|
      invariant |newHeaders| == i
      invariant forall k :: 0 <= k < i ==> newHeaders[k] == RewriteField(fields[k], n)
    {
      if Tagged(fields[i]) {
        newHeaders := newHeaders + [RUN_COUNT_TAG + IntToString(n)];
      } else {
        newHeaders := newHeaders + [fields[i]];
      }
      i := i + 1;
    }
    assert newHeaders == RewriteFields(fields, n);
    r := Join(newHeaders, ',');
  }

  /** A freshly written `run_count:<n>` field is tagged, has no comma, and reads back as `n`. */
  lemma WrittenFieldReadsBack(n: int)
    ensures Tagged(RUN_COUNT_TAG + IntToString(n))
    ensures ',' !in RUN_COUNT_TAG + IntToString(n)
    ensures FieldCount(RUN_COUNT_TAG + IntToString(n)) == Ok(n)
  {
    var s := IntToString(n);
    PrefixContained(RUN_COUNT_TAG, s);
    if ',' in s {
      PrintedChars(n, ',');
    }
    if ':' in s {
      PrintedChars(n, ':');
    }
    assert RUN_COUNT_TAG + s == "run_count" + [':'] + s;
    SplitAtFirst("run_count", ':', s);
    SplitWithout(s, ':');
    ParsePrinted(n);
  }

  /** Over rewritten fields the fold yields `n` if some field was tagged, else the count passed in. */
  lemma {:induction false} RewrittenFieldsCount(fields: seq<string>, n: int, acc: int)
    ensures RunCountFrom(RewriteFields(fields, n), acc) ==
              Ok(if exists k :: 0 <= k < |fields| && Tagged(fields[k]) then n else acc)
    decreases |fields|
  {
    if fields != [] {
      var r := RewriteFields(fields, n);
      assert r[1..] == RewriteFields(fields[1..], n);
      WrittenFieldReadsBack(n);
      var next := if Tagged(fields[0]) then n else acc;
      RewrittenFieldsCount(fields[1..], n, next);
      if exists k :: 0 <= k < |fields[1..]| && Tagged(fields[1..][k]) {
        var k :| 0 <= k < |fields[1..]| && Tagged(fields[1..][k]);
        assert fields[k + 1] == fields[1..][k];
      }
      if exists k :: 0 <= k < |fields| && Tagged(fields[k]) {
        var k :| 0 <= k < |fields| && Tagged(fields[k]);
        if k > 0 {
          assert fields[1..][k - 1] == fields[k];
        }
      }
    }
  }

  /**
   * The three guarantees of the rewrite: the number of fields is kept,
   * untagged fields are kept, tagged ones become `run_count:<n>`, and the
   * headers then read back as `n` whenever some field was tagged (and are
   * unchanged when none was).
   */
  lemma RewriteGuarantees(headers: string, n: int)
    ensures |Split(RewrittenHeaders(headers, n), ',')| == |Split(headers, ',')|
    ensures forall k :: 0 <= k < |Split(headers, ',')| && !Tagged(Split(headers, ',')[k]) ==>
              Split(RewrittenHeaders(headers, n), ',')[k] == Split(headers, ',')[k]
    ensures forall k :: 0 <= k < |Split(headers, ',')| && Tagged(Split(headers, ',')[k]) ==>
              Split(RewrittenHeaders(headers, n), ',')[k] == RUN_COUNT_TAG + IntToString(n)
    ensures (exists k :: 0 <= k < |Split(headers, ',')| && Tagged(Split(headers, ',')[k])) ==>
              RunCountOf(RewrittenHeaders(headers, n)) == Ok(n)
    ensures (forall k :: 0 <= k < |Split(headers, ',')| ==> !Tagged(Split(headers, ',')[k])) ==>
              RewrittenHeaders(headers, n) == headers
  {
    var fields := Split(headers, ',');
    var written := RewriteFields(fields, n);
    SplitPiecesFree(headers, ',');
    WrittenFieldReadsBack(n);
    SplitJoin(written, ',');
    RewrittenFieldsCount(fields, n, INFINITE_RUN_COUNT);
    if forall k :: 0 <= k < |fields| ==> !Tagged(fields[k]) {
      assert written == fields;
      JoinSplit(headers, ',');
    }
  }
}
