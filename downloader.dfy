// The snapshot script's downloader (scripts/downloader.py): a counter of
// completed downloads, and two retry loops that try again after an HTTP error
// whose status is on a fixed list, while a retry budget lasts, sleeping 5
// seconds before the first retry and twice as long before each further one.
// The network is a function from the attempt number to the attempt's outcome,
// and the sleeps are recorded in a ghost log instead of being slept.
module Download {
  import opened Wrappers

  /** The HTTP status codes after which a download is tried again. */
  const RetryHttpCodes: seq<int> := [408, 409, 425, 429, 500, 502, 503, 504, 509]
  const InitialRetryDelaySeconds := 5
  /** The retry budget of both downloads when the caller gives none, as every caller in the snapshot script does. */
  const DefaultRetryCount := 3

  /**
   * How one attempt ends: with the data, cancelled by the caller's progress
   * callback (which raises to abort the transfer), with an HTTP error status,
   * with the response opened but the reading of its body failing with an
   * error that is not an HTTP error, or with any other error.
   */
  datatype Attempt = Completed(body: seq<bv8>) | Cancelled | HttpError(code: int) | ReadFailed | OtherError

  /**
   * The error a download raises to its caller. `Aborted` is the cancellation
   * escaping `downloadToBuffer`, which does not catch it; as that method
   * installs no progress callback, no attempt of it is ever cancelled.
   */
  datatype DownloadError = HttpFailure(code: int) | OtherFailure | Aborted

  predicate Retryable(code: int)
  {
    code in RetryHttpCodes
  }

  /** Attempt `a`, made with `budget` retries left, is followed by a retry. */
  predicate Retried(a: Attempt, budget: int)
  {
    a.HttpError? && Retryable(a.code) && budget > 0
  }

  /**
   * 503 is retried while the budget lasts; 404 and 501, a cancelled
   * download and a failed read never are.
   */
  lemma RetriedExamples()
    ensures Retried(HttpError(503), 1) && !Retried(HttpError(503), 0)
    ensures !Retried(HttpError(404), 3) && !Retried(HttpError(501), 3)
    ensures !Retried(Cancelled, 3) && !Retried(ReadFailed, 3)
  {
  }

  /**
   * The number of the last attempt of a loop whose attempt `k` has `budget`
   * retries left: every earlier attempt was retried, and this one was not.
   */
  function LastAttempt(attempts: nat -> Attempt, k: nat, budget: int): (n: nat)
    ensures k <= n && (budget <= 0 ==> n == k) && (budget > 0 ==> n - k <= budget)
    ensures !Retried(attempts(n), budget - (n - k))
    ensures forall j :: k <= j < n ==> Retried(attempts(j), budget - (j - k))
    decreases if budget > 0 then budget else 0
  {
    if Retried(attempts(k), budget) then LastAttempt(attempts, k + 1, budget - 1) else k
  }

  lemma LastAttemptStep(attempts: nat -> Attempt, k: nat, budget: int)
    ensures Retried(attempts(k), budget) ==> LastAttempt(attempts, k, budget) == LastAttempt(attempts, k + 1, budget - 1)
    ensures !Retried(attempts(k), budget) ==> LastAttempt(attempts, k, budget) == k
  {
  }

  function Pow2(n: nat): (p: nat)
    ensures p >= 1
  {
    if n == 0 then 1 else 2 * Pow2(n - 1)
  }

  /** The delay before retry number `j` (counting from 0). */
  function Backoff(j: nat): nat
  {
    InitialRetryDelaySeconds * Pow2(j)
  }

  /** The sleeps of the first `n` retries, in order. */
  function Backoffs(n: nat): seq<nat>
  {
    seq(n, (j: int) requires 0 <= j => Backoff(j))
  }

  /** One more retry: its delay is twice the previous one, and it joins the log. */
  lemma BackoffStep(k: nat)
    ensures Backoff(k + 1) == 2 * Backoff(k)
    ensures Backoffs(k + 1) == Backoffs(k) + [Backoff(k)]
  {
  }

  /** `downloadToFile` counts a download once `urlretrieve` has returned. */
  predicate FileCounts(last: Attempt)
  {
    last.Completed?
  }

  /**
   * `downloadToBuffer` counts a download as soon as `urlopen` has opened the
   * response, before the body is read, so a failed read is counted too.
   */
  predicate BufferCounts(last: Attempt)
  {
    last.Completed? || last.ReadFailed?
  }

  /** What `downloadToFile` returns or raises once its last attempt is made. */
  function FileOutcome(last: Attempt): Outcome<DownloadError>
  {
    match last
    case Completed(_) => Pass
    case Cancelled => Pass
    case HttpError(code) => Fail(HttpFailure(code))
    case ReadFailed => Fail(OtherFailure)
    case OtherError => Fail(OtherFailure)
  }

  /** What `downloadToBuffer` returns or raises once its last attempt is made. */
  function FetchOutcome(last: Attempt): Result<seq<bv8>, DownloadError>
  {
    match last
    case Completed(body) => Success(body)
    case Cancelled => Failure(Aborted)
    case HttpError(code) => Failure(HttpFailure(code))
    case ReadFailed => Failure(OtherFailure)
    case OtherError => Failure(OtherFailure)
  }

  class Downloader {
    /** The number of downloads completed so far. */
    var downloadCount: nat
    /** The delays requested from `time.sleep`, in order. */
    ghost var sleeps: seq<nat>

    constructor()
      ensures downloadCount == 0 && sleeps == []
    {
      downloadCount := 0;
      sleeps := [];
    }

    function DownloadCount(): (n: nat)
      reads this
      ensures n == downloadCount
    {
      downloadCount
    }

    /**
     * Downloads to a file: attempt after attempt until one completes (counted),
     * is cancelled (returns quietly, not counted), or fails without a retry
     * (raises its error).
     */
    method DownloadToFile(attempts: nat -> Attempt, retryCount: int) returns (r: Outcome<DownloadError>)
      modifies this
      ensures r == FileOutcome(attempts(LastAttempt(attempts, 0, retryCount)))
      ensures downloadCount == old(downloadCount) + (if FileCounts(attempts(LastAttempt(attempts, 0, retryCount))) then 1 else 0)
      ensures sleeps == old(sleeps) + Backoffs(LastAttempt(attempts, 0, retryCount))
    {
      var budget := retryCount;
      var retryDelay: nat := InitialRetryDelaySeconds;
      var k: nat := 0;
      ghost var last := LastAttempt(attempts, 0, retryCount);
      while true
        invariant budget == retryCount - k
        invariant LastAttempt(attempts, k, budget) == last
        invariant retryDelay == Backoff(k)
        invariant downloadCount == old(downloadCount)
        invariant sleeps == old(sleeps) + Backoffs(k)
        decreases if budget > 0 then budget else 0
      {
        LastAttemptStep(attempts, k, budget);
        match attempts(k) {
        case Completed(_) =>
          downloadCount := downloadCount + 1;
          return Pass;
        case Cancelled =>
          return Pass;
        case HttpError(code) =>
          var isRetrying := false;
          if code in RetryHttpCodes {
            if budget > 0 {
              BackoffStep(k);
              sleeps := sleeps + [retryDelay];
              budget := budget - 1;
              retryDelay := retryDelay * 2;
              isRetrying := true;
            }
          }
          if !isRetrying {
            return Fail(HttpFailure(code));
          }
        case ReadFailed =>
          return Fail(OtherFailure);
        case OtherError =>
          return Fail(OtherFailure);
        }
        k := k + 1;
      }
    }

    /**
     * Downloads to memory: the same loop, returning the data of the attempt
     * that completes.
     */
    method DownloadToBuffer(attempts: nat -> Attempt, retryCount: int) returns (r: Result<seq<bv8>, DownloadError>)
      modifies this
      ensures r == FetchOutcome(attempts(LastAttempt(attempts, 0, retryCount)))
      ensures downloadCount == old(downloadCount) + (if BufferCounts(attempts(LastAttempt(attempts, 0, retryCount))) then 1 else 0)
      ensures sleeps == old(sleeps) + Backoffs(LastAttempt(attempts, 0, retryCount))
    {
      var budget := retryCount;
      var retryDelay: nat := InitialRetryDelaySeconds;
      var k: nat := 0;
      ghost var last := LastAttempt(attempts, 0, retryCount);
      while true
        invariant budget == retryCount - k
        invariant LastAttempt(attempts, k, budget) == last
        invariant retryDelay == Backoff(k)
        invariant downloadCount == old(downloadCount)
        invariant sleeps == old(sleeps) + Backoffs(k)
        decreases if budget > 0 then budget else 0
      {
        LastAttemptStep(attempts, k, budget);
        match attempts(k) {
        case Completed(body) =>
          downloadCount := downloadCount + 1;
          return Success(body);
        case Cancelled =>
          return Failure(Aborted);
        case HttpError(code) =>
          var isRetrying := false;
          if code in RetryHttpCodes {
            if budget > 0 {
              BackoffStep(k);
              sleeps := sleeps + [retryDelay];
              budget := budget - 1;
              retryDelay := retryDelay * 2;
              isRetrying := true;
            }
          }
          if !isRetrying {
            return Failure(HttpFailure(code));
          }
        case ReadFailed =>
          downloadCount := downloadCount + 1;
          return Failure(OtherFailure);
        case OtherError =>
          return Failure(OtherFailure);
        }
        k := k + 1;
      }
    }
  }

  /**
   * The loop stops at the first attempt that is not retried: a run of
   * retried attempts followed by one that is not decides the outcome.
   */
  lemma {:induction false} LastAttemptIs(attempts: nat -> Attempt, k: nat, budget: int, j: nat)
    requires k <= j
    requires forall i :: k <= i < j ==> Retried(attempts(i), budget - (i - k))
    requires !Retried(attempts(j), budget - (j - k))
    ensures LastAttempt(attempts, k, budget) == j
    decreases j - k
  {
    if k < j {
      assert Retried(attempts(k), budget);
      LastAttemptIs(attempts, k + 1, budget - 1, j);
    }
  }

  /** An HTTP error that is not on the list is raised at once, whatever the budget. */
  lemma NotRetryableRaisedAtOnce(attempts: nat -> Attempt, retryCount: int)
    requires attempts(0).HttpError? && !Retryable(attempts(0).code)
    ensures LastAttempt(attempts, 0, retryCount) == 0
    ensures FileOutcome(attempts(LastAttempt(attempts, 0, retryCount))) == Fail(HttpFailure(attempts(0).code))
    ensures FetchOutcome(attempts(LastAttempt(attempts, 0, retryCount))) == Failure(HttpFailure(attempts(0).code))
  {
    LastAttemptIs(attempts, 0, retryCount, 0);
  }

  /**
   * With every attempt failing with a listed HTTP error, `retryCount` retries
   * are made and the error of attempt number `retryCount` is raised.
   */
  lemma ExhaustedRetries(attempts: nat -> Attempt, retryCount: nat)
    requires forall j :: 0 <= j <= retryCount ==> attempts(j).HttpError? && Retryable(attempts(j).code)
    ensures LastAttempt(attempts, 0, retryCount) == retryCount
    ensures FileOutcome(attempts(LastAttempt(attempts, 0, retryCount))) == Fail(HttpFailure(attempts(retryCount).code))
  {
    LastAttemptIs(attempts, 0, retryCount, retryCount);
  }

  /**
   * Listed HTTP errors on the first `j` attempts and a completed attempt
   * number `j`, within the budget: the data of attempt `j` is the result.
   */
  lemma CompletedAfterRetries(attempts: nat -> Attempt, retryCount: int, j: nat)
    requires j <= retryCount
    requires forall i :: 0 <= i < j ==> attempts(i).HttpError? && Retryable(attempts(i).code)
    requires attempts(j).Completed?
    ensures LastAttempt(attempts, 0, retryCount) == j
    ensures FileOutcome(attempts(j)) == Pass
    ensures FetchOutcome(attempts(j)) == Success(attempts(j).body)
  {
    LastAttemptIs(attempts, 0, retryCount, j);
  }

  /** Any other error stops the loop at once: it is raised without a retry. */
  lemma OtherErrorRaisedAtOnce(attempts: nat -> Attempt, retryCount: int, j: nat)
    requires forall i :: 0 <= i < j ==> Retried(attempts(i), retryCount - i)
    requires attempts(j).OtherError?
    ensures LastAttempt(attempts, 0, retryCount) == j
    ensures FileOutcome(attempts(j)) == Fail(OtherFailure)
  {
    LastAttemptIs(attempts, 0, retryCount, j);
  }

  /**
   * A failed read of an opened response is raised without a retry; the
   * download to memory has counted it already, the download to a file has not.
   */
  lemma ReadFailureRaisedCounted(attempts: nat -> Attempt, retryCount: int, j: nat)
    requires forall i :: 0 <= i < j ==> Retried(attempts(i), retryCount - i)
    requires attempts(j).ReadFailed?
    ensures LastAttempt(attempts, 0, retryCount) == j
    ensures FetchOutcome(attempts(j)) == Failure(OtherFailure) && BufferCounts(attempts(j))
    ensures FileOutcome(attempts(j)) == Fail(OtherFailure) && !FileCounts(attempts(j))
  {
    LastAttemptIs(attempts, 0, retryCount, j);
  }

  /** A cancelled file download ends the loop quietly: no error, no retry. */
  lemma CancelledEndsQuietly(attempts: nat -> Attempt, retryCount: int, j: nat)
    requires forall i :: 0 <= i < j ==> Retried(attempts(i), retryCount - i)
    requires attempts(j).Cancelled?
    ensures LastAttempt(attempts, 0, retryCount) == j
    ensures FileOutcome(attempts(j)) == Pass
  {
    LastAttemptIs(attempts, 0, retryCount, j);
  }

  /** Each delay is twice the one before. */
  lemma BackoffDoubles(n: nat, j: nat)
    requires j + 1 < n
    ensures Backoffs(n)[j + 1] == 2 * Backoffs(n)[j]
  {
    BackoffStep(j);
  }

  function Sum(s: seq<nat>): nat
  {
    if |s| == 0 then 0 else Sum(s[..|s| - 1]) + s[|s| - 1]
  }

  /** `n` retries sleep 5 * (2^n - 1) seconds in all. */
  lemma {:induction false} TotalBackoff(n: nat)
    ensures Sum(Backoffs(n)) == InitialRetryDelaySeconds * (Pow2(n) - 1)
  {
    if n > 0 {
      TotalBackoff(n - 1);
      BackoffStep(n - 1);
      assert Backoffs(n)[..n - 1] == Backoffs(n - 1);
    }
  }

  /**
   * With the default budget a download makes at most four attempts and
   * sleeps at most 5 + 10 + 20 = 35 seconds in all.
   */
  lemma DefaultBudget(attempts: nat -> Attempt)
    ensures LastAttempt(attempts, 0, DefaultRetryCount) <= DefaultRetryCount
    ensures Sum(Backoffs(LastAttempt(attempts, 0, DefaultRetryCount))) <= 35
  {
    var n := LastAttempt(attempts, 0, DefaultRetryCount);
    TotalBackoff(n);
    assert Pow2(n) <= 8 by {
      assert Pow2(0) == 1 && Pow2(1) == 2 && Pow2(2) == 4 && Pow2(3) == 8;
    }
  }
}
