/** The standalone script Videofragment.py: `download_segment` fetches one
    segment with up to `RETRY` GETs, and `main` walks the indices from
    `START`, appending every downloaded body to `merged.ts`, until it passes
    `END`, sees `STOP_AFTER_N_404` indices in a row without a body, or a
    download raises. Unlike the worker it writes any body (no MPEG-TS check)
    and gives up on the first segment whose retries are exhausted. */
module Legacy {
  import opened Text
  import opened Segments
  import opened Fetch
  import opened Assembly
  import opened RangeDetect
  import opened WorkerSpec

  /** The script's settings block: segment URL prefix, first index, last
      index (`None`: unknown), zero-pad width, attempts per segment, and how
      many indices in a row without a body end the walk. */
  datatype Settings = Settings(base: string, start: nat, end: Option<nat>, zeroPad: int, retry: int, stopAfter: int)

  const Folder: string := "https://yavidssgood.com/068E1833C4084E17A68F0C0ECA25E36E/"

  /** The values the script ships with. */
  const Defaults: Settings := Settings(Folder + SegmentPrefix, 1, None, 4, 3, 5)

  /** With the shipped settings the first GET is for `segment_0001.jpg`. */
  lemma DefaultsFirstUrl()
    ensures SegmentUrl(Defaults.base, Defaults.zeroPad, Defaults.start) == Folder + "segment_0001.jpg"
  {
    assert NatToString(1) == "1";
    assert ZFill(1, 4) == "0001";
  }

  // ---------------------------------------------------------------------
  // download_segment

  /** What `download_segment` ends in: `None` (a 404, or no attempt made), the
      body, or the exception it re-raises after the last attempt. */
  datatype Fetched = Missing | Got(bytes: seq<byte>) | Thrown(reason: string)

  /** The result, the GETs made and the pauses (in seconds) slept between them. */
  datatype SegmentFetch = SegmentFetch(result: Fetched, gets: nat, pauses: seq<nat>)

  /** An attempt that the `except` clause handles. */
  predicate IsError(o: Outcome)
  {
    o.HttpError? || o.Raised?
  }

  /** The attempts from number `attempt` on. */
  function Attempts(get: (string, nat) -> Outcome, url: string, retry: int, attempt: nat): SegmentFetch
    requires attempt >= 1
    decreases retry - attempt
  {
    if attempt > retry then SegmentFetch(Missing, 0, [])
    else
      var o := get(url, attempt);
      if o.NotFound? then SegmentFetch(Missing, 1, [])
      else if o.Body? then SegmentFetch(Got(o.bytes), 1, [])
      else if attempt == retry then SegmentFetch(Thrown(o.reason), 1, [])
      else
        var rest := Attempts(get, url, retry, attempt + 1);
        SegmentFetch(rest.result, rest.gets + 1, [attempt] + rest.pauses)
  }

  function SegmentDownload(get: (string, nat) -> Outcome, s: Settings, i: nat): SegmentFetch
  {
    Attempts(get, SegmentUrl(s.base, s.zeroPad, i), s.retry, 1)
  }

  /** What the attempts promise, from attempt number `attempt` on:
      - at most `retry - attempt + 1` GETs, none when no attempt is left;
      - the pauses are `attempt, attempt + 1, ...`, one fewer than the GETs;
      - every GET before the last one failed with an error;
      - a body is returned as it came, whatever its first byte;
      - an error is re-raised only from the last allowed attempt;
      - a 404 ends the attempts at once, without a pause. */
  lemma {:induction false} AttemptsShape(get: (string, nat) -> Outcome, url: string, retry: int, attempt: nat)
    requires attempt >= 1
    ensures var r := Attempts(get, url, retry, attempt);
      var last := attempt + r.gets - 1;
      && r.gets <= Max0(retry - attempt + 1)
      && (r.gets == 0 <==> attempt > retry)
      && (r.gets > 0 ==> r.pauses == Iota(attempt, last))
      && (r.gets == 0 ==> r.pauses == [] && r.result == Missing)
      && (forall a :: attempt <= a < last ==> IsError(get(url, a)))
      && (r.result.Got? ==> get(url, last) == Body(r.result.bytes))
      && (r.result.Thrown? ==> last == retry && IsError(get(url, last)) && get(url, last).reason == r.result.reason)
      && (r.result == Missing && r.gets > 0 ==> get(url, last) == NotFound)
      && (attempt <= retry && get(url, attempt) == NotFound ==> r == SegmentFetch(Missing, 1, []))
    decreases retry - attempt
  {
    if attempt <= retry && IsError(get(url, attempt)) && attempt < retry {
      AttemptsShape(get, url, retry, attempt + 1);
    }
  }

  /** Where no attempt answers a body that is not an MPEG-TS payload, the
      script behaves like the worker's retry loop: the same GETs, the same
      pauses, the same blob, and the worker's reported failure is the error
      the script raises. */
  lemma {:induction false} AgreesWithWorker(get: (string, nat) -> Outcome, url: string, retry: int, attempt: nat)
    requires attempt >= 1
    requires forall a :: attempt <= a <= retry && get(url, a).Body? ==> IsTsPayload(get(url, a).bytes)
    ensures var l := Attempts(get, url, retry, attempt);
      var w := Retry(get, url, retry, attempt);
      && l.gets == w.attempts && l.pauses == w.delays
      && (l.result.Got? <==> w.blob.Some?) && (w.blob.Some? ==> l.result.bytes == w.blob.value)
      && (l.result.Thrown? <==> w.failure.Some?) && (w.failure.Some? ==> l.result.reason == w.failure.value)
    decreases retry - attempt
  {
    if attempt <= retry && IsError(get(url, attempt)) && attempt < retry {
      AgreesWithWorker(get, url, retry, attempt + 1);
    }
  }

  /** Where they differ: a first answer that is a body without the sync byte
      is kept by the script, while the worker never writes it. */
  lemma KeepsNonTsBody(get: (string, nat) -> Outcome, url: string, retry: int, b: seq<byte>)
    requires retry >= 1 && get(url, 1) == Body(b) && !IsTsPayload(b)
    ensures Attempts(get, url, retry, 1) == SegmentFetch(Got(b), 1, [])
    ensures Retry(get, url, retry, 1).blob != Some(b)
  {
    RetryShape(get, url, retry, 1);
  }

  /** The attempts still to come, after `gets` GETs and `pauses` made. */
  function Resume(gets: nat, pauses: seq<nat>, rest: SegmentFetch): SegmentFetch
  {
    SegmentFetch(rest.result, gets + rest.gets, pauses + rest.pauses)
  }

  /** `download_segment(i, session)`. */
  method DownloadSegment(get: (string, nat) -> Outcome, s: Settings, i: nat)
    returns (result: Fetched, gets: nat, pauses: seq<nat>)
    ensures SegmentFetch(result, gets, pauses) == SegmentDownload(get, s, i)
  {
    var url := s.base + ZFill(i, s.zeroPad) + SegmentExtension;
    result, gets, pauses := Missing, 0, [];
    var attempt := 1;
    while attempt <= s.retry
      invariant 1 <= attempt && result == Missing
      invariant SegmentDownload(get, s, i) == Resume(gets, pauses, Attempts(get, url, s.retry, attempt))
      decreases s.retry - attempt
    {
      var o := get(url, attempt);
      gets := gets + 1;
      if o.NotFound? {
        AppendNil(pauses);
        return;
      }
      if o.Body? {
        result := Got(o.bytes);
        AppendNil(pauses);
        return;
      }
      if attempt == s.retry {
        result := Thrown(o.reason);
        AppendNil(pauses);
        return;
      }
      AppendAssoc(pauses, [attempt], Attempts(get, url, s.retry, attempt + 1).pauses);
      pauses := pauses + [attempt];
      attempt := attempt + 1;
    }
    AppendNil(pauses);
  }

  // ---------------------------------------------------------------------
  // main

  /** The blob index `i` contributes to the merged file. */
  function Yields(get: (string, nat) -> Outcome, s: Settings): nat -> Option<seq<byte>>
  {
    (i: nat) => var r := SegmentDownload(get, s, i).result; if r.Got? then Some(r.bytes) else None
  }

  /** The pauses slept while downloading the indices `[lo, hi)`. */
  function PausesOver(get: (string, nat) -> Outcome, s: Settings, lo: nat, hi: nat): seq<nat>
    decreases hi - lo
  {
    if hi <= lo then [] else PausesOver(get, s, lo, hi - 1) + SegmentDownload(get, s, hi - 1).pauses
  }

  /** Why the walk ended: `i > END`, too many indices in a row without a
      body, a download raised at `index`, or the walk was cut off after
      `fuel` indices (the script itself has no such bound). */
  datatype Stop = PastEnd | Threshold | Crash(index: nat, reason: string) | CutOff

  /** How the `while True` loop of `main` ended, given the merged file, its
      size (`total_written`), the pauses slept, the first index not walked
      (or the index whose download raised) and why the walk ended:
      - the file holds the bodies of `[start, next)` in index order;
      - it ends past `END` exactly when `END` is known and `next > END`;
      - it ends on missing indices only when `END` is unknown, right after
        the `STOP_AFTER_N_404`-th index in a row without a body, and no
        earlier run of misses was that long;
      - it ends on a raised download at the first index whose download
        raises. */
  ghost predicate Ended(get: (string, nat) -> Outcome, s: Settings, fuel: nat,
                        merged: seq<byte>, total: nat, pauses: seq<nat>, next: nat, stop: Stop)
  {
    var at := Yields(get, s);
    && s.start <= next <= s.start + fuel
    && merged == Flatten(Written(at, s.start, next)) && total == |merged|
    && pauses == PausesOver(get, s, s.start, if stop.Crash? then next + 1 else next)
    && (forall j :: s.start <= j < next ==> !SegmentDownload(get, s, j).result.Thrown?)
    && (stop == PastEnd <==> s.end.Some? && next > s.end.value)
    && (stop == PastEnd ==> next == Max(s.start, s.end.value + 1))
    && (s.end.Some? ==> next <= Max(s.start, s.end.value + 1))
    && (stop == Threshold ==> s.end.None? && s.start < next && at(next - 1).None? && Misses(at, s.start, next) >= s.stopAfter)
    && (s.end.None? ==> forall j :: s.start < j < next && at(j - 1).None? ==> Misses(at, s.start, j) < s.stopAfter)
    && (stop.Crash? ==> stop.index == next && SegmentDownload(get, s, next).result == Thrown(stop.reason))
    && (stop == CutOff ==> next == s.start + fuel)
  }

  /** The `while True` loop of `main`. */
  method FetchAll(get: (string, nat) -> Outcome, s: Settings, fuel: nat)
    returns (merged: seq<byte>, total: nat, pauses: seq<nat>, next: nat, stop: Stop)
    ensures Ended(get, s, fuel, merged, total, pauses, next, stop)
  {
    merged, total, pauses := [], 0, [];
    var n404: nat := 0;
    var i := s.start;
    while true
      invariant s.start <= i <= s.start + fuel
      invariant s.end.Some? ==> i <= Max(s.start, s.end.value + 1)
      invariant Walked(get, s, i, merged, total, n404, pauses)
      decreases s.start + fuel - i
    {
      if s.end.Some? && i > s.end.value {
        next, stop := i, PastEnd;
        EndsAtHead(get, s, fuel, i, merged, total, n404, pauses, stop);
        return;
      }
      if i == s.start + fuel {
        next, stop := i, CutOff;
        EndsAtHead(get, s, fuel, i, merged, total, n404, pauses, stop);
        return;
      }
      var result, gets, p := DownloadSegment(get, s, i);
      var ended;
      ended, merged, total, n404, pauses, next, stop := Settle(get, s, fuel, i, merged, total, n404, pauses, result, p);
      if ended {
        return;
      }
      i := i + 1;
    }
  }

  /** The rest of the loop body once index `i` has been downloaded: a raised
      download ends the walk at `i`; the `STOP_AFTER_N_404`-th miss in a row
      with `END` unknown ends it after `i`; otherwise a body is appended and
      the miss count reset, or a missing segment increments the miss count. */
  method Settle(get: (string, nat) -> Outcome, s: Settings, fuel: nat, i: nat,
                merged: seq<byte>, total: nat, n404: nat, pauses: seq<nat>, result: Fetched, p: seq<nat>)
    returns (ended: bool, merged': seq<byte>, total': nat, n404': nat, pauses': seq<nat>, next: nat, stop: Stop)
    requires Walked(get, s, i, merged, total, n404, pauses)
    requires s.start <= i < s.start + fuel
    requires s.end.Some? ==> i <= s.end.value
    requires SegmentDownload(get, s, i).result == result && p == SegmentDownload(get, s, i).pauses
    ensures ended ==> Ended(get, s, fuel, merged', total', pauses', next, stop)
    ensures !ended ==> Walked(get, s, i + 1, merged', total', n404', pauses')
  {
    merged', total', n404', pauses', next, stop := merged, total, n404, pauses + p, i, CutOff;
    if result.Thrown? {
      EndsOnCrash(get, s, fuel, i, merged, total, n404, pauses, p, result.reason);
      ended, stop := true, Crash(i, result.reason);
    } else if result.Missing? && s.end.None? && n404 + 1 >= s.stopAfter {
      EndsOnThreshold(get, s, fuel, i, merged, total, n404, pauses, p);
      ended, next, stop := true, i + 1, Threshold;
    } else if result.Missing? {
      WalkedMiss(get, s, i, merged, total, n404, pauses, p);
      ended, n404' := false, n404 + 1;
    } else {
      WalkedGot(get, s, i, merged, total, n404, pauses, p, result.bytes);
      ended, merged', total', n404' := false, merged + result.bytes, total + |result.bytes|, 0;
    }
  }

  /** The walk ends at the head of the loop: past `END`, or out of fuel. */
  lemma EndsAtHead(get: (string, nat) -> Outcome, s: Settings, fuel: nat, i: nat,
                   merged: seq<byte>, total: nat, n404: nat, pauses: seq<nat>, stop: Stop)
    requires Walked(get, s, i, merged, total, n404, pauses)
    requires s.start <= i <= s.start + fuel
    requires s.end.Some? ==> i <= Max(s.start, s.end.value + 1)
    requires stop == PastEnd || stop == CutOff
    requires stop == PastEnd <==> s.end.Some? && i > s.end.value
    requires stop == CutOff ==> i == s.start + fuel
    ensures Ended(get, s, fuel, merged, total, pauses, i, stop)
  {
  }

  /** The walk ends because the download of index `i` raised. */
  lemma EndsOnCrash(get: (string, nat) -> Outcome, s: Settings, fuel: nat, i: nat,
                    merged: seq<byte>, total: nat, n404: nat, pauses: seq<nat>, p: seq<nat>, reason: string)
    requires Walked(get, s, i, merged, total, n404, pauses)
    requires s.start <= i < s.start + fuel
    requires s.end.Some? ==> i <= s.end.value
    requires SegmentDownload(get, s, i).result == Thrown(reason) && p == SegmentDownload(get, s, i).pauses
    ensures Ended(get, s, fuel, merged, total, pauses + p, i, Crash(i, reason))
  {
    assert PausesOver(get, s, s.start, i + 1) == pauses + p;
  }

  /** The walk ends after the threshold-th miss in a row, at index `i`. */
  lemma EndsOnThreshold(get: (string, nat) -> Outcome, s: Settings, fuel: nat, i: nat,
                        merged: seq<byte>, total: nat, n404: nat, pauses: seq<nat>, p: seq<nat>)
    requires Walked(get, s, i, merged, total, n404, pauses)
    requires s.start <= i < s.start + fuel
    requires SegmentDownload(get, s, i).result.Missing? && s.end.None? && n404 + 1 >= s.stopAfter
    requires p == SegmentDownload(get, s, i).pauses
    ensures Ended(get, s, fuel, merged, total, pauses + p, i + 1, Threshold)
  {
    WrittenStep(Yields(get, s), s.start, i);
  }

  /** What the walk has established once the indices `[start, i)` are done:
      the file, its size, the consecutive-miss count and the pauses so far;
      no download raised, and (with `END` unknown) no run of misses reached
      the threshold. */
  ghost predicate Walked(get: (string, nat) -> Outcome, s: Settings, i: nat, merged: seq<byte>, total: nat, n404: nat, pauses: seq<nat>)
  {
    var at := Yields(get, s);
    && s.start <= i
    && merged == Flatten(Written(at, s.start, i)) && total == |merged|
    && n404 == Misses(at, s.start, i)
    && pauses == PausesOver(get, s, s.start, i)
    && (forall j :: s.start <= j < i ==> !SegmentDownload(get, s, j).result.Thrown?)
    && (s.end.None? ==> forall j :: s.start < j <= i && at(j - 1).None? ==> Misses(at, s.start, j) < s.stopAfter)
  }

  /** Index `i` yielded no body and the walk goes on. */
  lemma WalkedMiss(get: (string, nat) -> Outcome, s: Settings, i: nat,
                   merged: seq<byte>, total: nat, n404: nat, pauses: seq<nat>, p: seq<nat>)
    requires Walked(get, s, i, merged, total, n404, pauses)
    requires SegmentDownload(get, s, i).result.Missing? && p == SegmentDownload(get, s, i).pauses
    requires s.end.None? ==> n404 + 1 < s.stopAfter
    ensures Walked(get, s, i + 1, merged, total, n404 + 1, pauses + p)
  {
    WrittenStep(Yields(get, s), s.start, i);
  }

  /** Index `i` yielded the body `b`, which is appended. */
  lemma WalkedGot(get: (string, nat) -> Outcome, s: Settings, i: nat,
                  merged: seq<byte>, total: nat, n404: nat, pauses: seq<nat>, p: seq<nat>, b: seq<byte>)
    requires Walked(get, s, i, merged, total, n404, pauses)
    requires SegmentDownload(get, s, i).result == Got(b) && p == SegmentDownload(get, s, i).pauses
    ensures Walked(get, s, i + 1, merged + b, total + |b|, 0, pauses + p)
  {
    var at := Yields(get, s);
    assert at(i) == Some(b);
    WrittenStep(at, s.start, i);
    assert Misses(at, s.start, i + 1) == 0;
    assert PausesOver(get, s, s.start, i + 1) == pauses + p;
  }

  /** `main` without the ffmpeg conversion, whose outcome is `remux`. Exit
      code 0 exactly when the walk ended past `END` or on missing indices,
      something was written, and the conversion succeeded; 1 otherwise
      (a raised download, an empty file, or a failed conversion). `None`
      when the walk was cut off by `fuel`. */
  method RunScript(get: (string, nat) -> Outcome, s: Settings, remux: Remux, fuel: nat)
    returns (code: Option<int>, merged: seq<byte>, ghost next: nat, ghost stop: Stop)
    ensures merged == Flatten(Written(Yields(get, s), s.start, next))
    ensures code.None? <==> stop == CutOff
    ensures code == Some(0) <==> (stop == PastEnd || stop == Threshold) && merged != [] && remux == RemuxOk
    ensures code.Some? ==> code.value == 0 || code.value == 1
    ensures stop.Crash? ==> SegmentDownload(get, s, stop.index).result == Thrown(stop.reason)
  {
    var m, total, pauses, n, st := FetchAll(get, s, fuel);
    merged, next, stop := m, n, st;
    if st.Crash? {
      code := Some(1);
    } else if st == CutOff {
      code := None;
    } else if total == 0 {
      code := Some(1);
    } else if remux != RemuxOk {
      code := Some(1);
    } else {
      code := Some(0);
    }
  }
}
