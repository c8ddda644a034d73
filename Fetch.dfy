/** The per-segment retry loop of the download worker (workers.py, inside
    `run`): up to `retry` GETs of one segment URL, a 404 ends the attempts at
    once, an HTTP error, an exception or a body that does not start with the
    MPEG-TS sync byte is retried after a pause of `attempt` seconds, and the
    last failure is reported. The function below describes what one index
    yields; the worker's method is proved to follow it. */
module Fetch {
  import opened Text
  import opened Segments

  /** The MPEG-TS sync byte (ISO/IEC 13818-1, section 2.4.3.2). */
  const TsSyncByte: byte := 0x47
  const BadSegmentMessage: string := "Bad segment (not TS header 0x47)"

  /** Where the segments of one job come from: the network, the common URL
      prefix, the zero-pad width and the attempts allowed per segment. */
  datatype Endpoint = Endpoint(net: Network, base: string, zeroPad: int, retry: int)

  function UrlOf(ep: Endpoint, i: nat): string
  {
    SegmentUrl(ep.base, ep.zeroPad, i)
  }

  /** A body the worker is willing to write: non-empty, first byte 0x47. */
  predicate IsTsPayload(b: seq<byte>)
  {
    |b| > 0 && b[0] == TsSyncByte
  }

  /** What one attempt amounts to. */
  datatype Attempt = Absent | Valid(bytes: seq<byte>) | Error(reason: string)

  function Classify(o: Outcome): (a: Attempt)
    ensures a.Absent? <==> o.NotFound?
    ensures a.Valid? <==> o.Body? && IsTsPayload(o.bytes)
    ensures a.Valid? ==> a.bytes == o.bytes
    ensures o.Body? && !IsTsPayload(o.bytes) ==> a == Error(BadSegmentMessage)
  {
    match o
    case NotFound => Absent
    case HttpError(e) => Error(e)
    case Raised(e) => Error(e)
    case Body(b) => if |b| == 0 || b[0] != TsSyncByte then Error(BadSegmentMessage) else Valid(b)
  }

  /** What the retry loop yields for one index: the blob written (if any),
      the number of GETs made, the pauses between them, and the failure
      reported after the last attempt (if it failed with an error). */
  datatype SegmentResult = SegmentResult(blob: Option<seq<byte>>, attempts: nat, delays: seq<nat>, failure: Option<string>)

  /** The attempts from number `attempt` on. */
  function Retry(get: (string, nat) -> Outcome, url: string, retry: int, attempt: nat): SegmentResult
    requires attempt >= 1
    decreases retry - attempt
  {
    if attempt > retry then SegmentResult(None, 0, [], None)
    else match Classify(get(url, attempt))
      case Absent => SegmentResult(None, 1, [], None)
      case Valid(b) => SegmentResult(Some(b), 1, [], None)
      case Error(e) =>
        if attempt == retry then SegmentResult(None, 1, [], Some(e))
        else
          var rest := Retry(get, url, retry, attempt + 1);
          SegmentResult(rest.blob, rest.attempts + 1, [attempt] + rest.delays, rest.failure)
  }

  function SegmentAt(ep: Endpoint, i: nat): SegmentResult
  {
    Retry(ep.net.get, UrlOf(ep, i), ep.retry, 1)
  }

  /** `[a, a + 1, ..., b - 1]`. */
  function Iota(a: nat, b: nat): (r: seq<nat>)
    ensures |r| == if a <= b then b - a else 0
    ensures forall k :: 0 <= k < |r| ==> r[k] == a + k
    decreases b - a
  {
    if a >= b then [] else [a] + Iota(a + 1, b)
  }

  /** What the retry loop promises, from attempt number `attempt` on:
      - at most `retry - attempt + 1` GETs are made;
      - a blob is written only when it is a TS payload, and it is the body of
        the last GET made;
      - the pauses are `attempt, attempt + 1, ...`, one fewer than the GETs;
      - every GET before the last one failed with an error, so a 404 or a
        TS payload ends the attempts and the blob is the first valid body;
      - a failure is reported only when every attempt was used up, and it is
        the error of the last GET;
      - a 404 ends the attempts at once. */
  lemma {:induction false} RetryShape(get: (string, nat) -> Outcome, url: string, retry: int, attempt: nat)
    requires attempt >= 1
    ensures var r := Retry(get, url, retry, attempt);
      && r.attempts <= Max0(retry - attempt + 1)
      && (r.attempts == 0 <==> attempt > retry)
      && (r.blob.Some? ==> IsTsPayload(r.blob.value) && get(url, attempt + r.attempts - 1) == Body(r.blob.value))
      && (r.attempts > 0 ==> r.delays == Iota(attempt, attempt + r.attempts - 1))
      && (r.attempts == 0 ==> r.delays == [])
      && (forall a :: attempt <= a < attempt + r.attempts - 1 ==> Classify(get(url, a)).Error?)
      && (r.failure.Some? ==> r.blob.None? && r.attempts == retry - attempt + 1)
      && (r.failure.Some? ==> Classify(get(url, attempt + r.attempts - 1)) == Error(r.failure.value))
      && (r.blob.None? && r.failure.None? && r.attempts > 0 ==> get(url, attempt + r.attempts - 1) == NotFound)
      && (get(url, attempt) == NotFound && attempt <= retry ==> r.attempts == 1 && r.blob.None? && r.delays == [])
    decreases retry - attempt
  {
    if attempt <= retry && Classify(get(url, attempt)).Error? && attempt < retry {
      RetryShape(get, url, retry, attempt + 1);
    }
  }

  function Max0(x: int): nat { if x > 0 then x else 0 }

  /** A segment whose every attempt answers with a body that is not a TS
      payload is never written, and it is reported as failed. */
  lemma {:induction false} CorruptNeverWritten(get: (string, nat) -> Outcome, url: string, retry: int, attempt: nat)
    requires 1 <= attempt <= retry
    requires forall a :: attempt <= a <= retry ==> get(url, a).Body? && !IsTsPayload(get(url, a).bytes)
    ensures Retry(get, url, retry, attempt).blob.None?
    ensures Retry(get, url, retry, attempt).failure == Some(BadSegmentMessage)
    decreases retry - attempt
  {
    if attempt < retry {
      CorruptNeverWritten(get, url, retry, attempt + 1);
    }
  }

  /** A segment that answers with a TS payload on the first attempt is
      written after exactly one GET and no pause. */
  lemma FirstAttemptWritten(get: (string, nat) -> Outcome, url: string, retry: int, b: seq<byte>)
    requires retry >= 1 && get(url, 1) == Body(b) && IsTsPayload(b)
    ensures Retry(get, url, retry, 1) == SegmentResult(Some(b), 1, [], None)
  {
  }
}
