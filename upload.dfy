/** `uploadFile` of src/upload.ts: retry an upload a bounded number of
    times with a linear back-off, and report every failure together. */
module Upload {
  import opened Results
  import opened ErrorLists

  /** `BackOff`: how many attempts, and the back-off unit in milliseconds. */
  datatype BackOff = BackOff(count: int, time: int)

  /** The exported `BackOff` (src/upload.ts:15-20): three attempts, 500 ms apart. */
  const DefaultBackOff: BackOff := BackOff(3, 500)

  /** What one call of `client.upload(...).promise()` does. */
  datatype Attempt = Uploaded | Failed(error: Error)

  /** Attempts `0 .. k-1` all failed. */
  predicate FailedBefore(attempt: nat -> Attempt, k: nat)
  {
    forall j :: 0 <= j < k ==> attempt(j).Failed?
  }

  /** The errors of the first `k` attempts, in attempt order. */
  function ErrorsOf(attempt: nat -> Attempt, k: nat): (errors: seq<Error>)
    requires FailedBefore(attempt, k)
    ensures |errors| == k
  {
    seq(k, j requires 0 <= j < k => attempt(j).error)
  }

  /** One more failed attempt appends its error. */
  lemma ErrorsOfStep(attempt: nat -> Attempt, k: nat)
    requires FailedBefore(attempt, k + 1)
    ensures ErrorsOf(attempt, k + 1) == ErrorsOf(attempt, k) + [attempt(k).error]
  {
  }

  function AttemptLimit(backOff: BackOff): nat
  {
    if backOff.count > 0 then backOff.count else 0
  }

  /** `uploadFile(client, uploadCtx)` (src/upload.ts:30-46). `attempt(j)` is
      the outcome of the `j`-th upload call; `calls` counts the calls made
      and `delays` lists the back-off waits, in milliseconds, in order. */
  method UploadFile(backOff: BackOff, attempt: nat -> Attempt)
    returns (r: Result<(), ErrorList>, calls: nat, delays: seq<int>)
    ensures calls <= AttemptLimit(backOff)
    ensures r.Ok? ==> 1 <= calls && attempt(calls - 1).Uploaded? && FailedBefore(attempt, calls - 1)
    ensures r.Err? ==> calls == AttemptLimit(backOff) && FailedBefore(attempt, calls) &&
                       r.error == NewErrorList("UploadRetriesFailed", ErrorsOf(attempt, calls))
    ensures |delays| == (if r.Ok? then calls - 1 else calls)
    ensures forall j :: 0 <= j < |delays| ==> delays[j] == backOff.time * (j + 1)
  {
    var uploadErrors: seq<Error> := [];
    calls, delays := 0, [];
    while |uploadErrors| < backOff.count
      invariant calls == |uploadErrors| == |delays| <= AttemptLimit(backOff)
      invariant FailedBefore(attempt, calls)
      invariant uploadErrors == ErrorsOf(attempt, calls)
      invariant forall j :: 0 <= j < |delays| ==> delays[j] == backOff.time * (j + 1)
      decreases backOff.count - |uploadErrors|
    {
      var outcome := attempt(calls);
      calls := calls + 1;
      if outcome.Uploaded? {
        return Ok(()), calls, delays;
      }
      delays := delays + [backOff.time * (|uploadErrors| + 1)];
      ErrorsOfStep(attempt, calls - 1);
      uploadErrors := uploadErrors + [outcome.error];
      if |uploadErrors| == backOff.count {
        break;
      }
    }
    r := Err(NewErrorList("UploadRetriesFailed", uploadErrors));
  }

  /** With the default back-off, an upload that always fails is tried three
      times, waits 500, 1000 and 1500 ms, and reports the three errors. The
      call count is the one src/__test__/upload.test.ts:55-72 checks (that
      test shortens the back-off unit, which does not change the count). */
  method DefaultBackOffGivesUp(error: Error) returns (r: Result<(), ErrorList>, calls: nat, delays: seq<int>)
    ensures calls == 3 && delays == [500, 1000, 1500]
    ensures r == Err(NewErrorList("UploadRetriesFailed", [error, error, error]))
  {
    var attempt: nat -> Attempt := j => Failed(error);
    assert FailedBefore(attempt, 3);
    r, calls, delays := UploadFile(DefaultBackOff, attempt);
    assert ErrorsOf(attempt, 3) == [error, error, error];
    assert delays[0] == 500 && delays[1] == 1000 && delays[2] == 1500;
  }

  /** With the default back-off, an upload that fails once and then succeeds
      is tried twice and waits 500 ms once; the call count is the one
      src/__test__/upload.test.ts:31-53 checks. */
  method DefaultBackOffRetries(error: Error) returns (r: Result<(), ErrorList>, calls: nat, delays: seq<int>)
    ensures r.Ok?
    ensures calls == 2
    ensures delays == [500]
  {
    var attempt: nat -> Attempt := j => if j == 0 then Failed(error) else Uploaded;
    assert attempt(0).Failed? && attempt(1).Uploaded? && !FailedBefore(attempt, 2);
    r, calls, delays := UploadFile(DefaultBackOff, attempt);
    assert delays[0] == 500;
  }
}
