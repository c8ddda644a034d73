/** What the download worker (workers.py `DownloadWorker`) emits and
    computes, as functions: its signals and messages, what the fetch loop
    does for each index, the failure threshold and the scratch and output
    names. The worker class in module `Worker` is proved to follow them. */
module WorkerSpec {
  import opened Text
  import opened Segments
  import opened RangeDetect
  import opened Fetch
  import opened Assembly
  import opened Config

  /** The three signals a worker emits: `progress(index, size)`,
      `status(message)` and `done(ok, message)`. */
  datatype Event = Progress(index: nat, size: nat) | Status(message: string) | Done(ok: bool, message: string)

  const DetectingStartMessage: string := "시작 번호 탐지 중..."
  const DetectingEndMessage: string := "끝 번호 탐지 중..."
  const CancelledMessage: string := "사용자에 의해 중단됨"
  const NoSegmentsMessage: string := "유효한 세그먼트를 찾지 못했습니다. URL을 확인하세요."
  const DownloadStartedMessage: string := "다운로드 시작"
  const ThresholdMessage: string := "연속 404 임계치 도달 → 종료"
  const EmptyResultMessage: string := "세그먼트를 하나도 받지 못했습니다. URL/헤더/쿠키를 확인하세요."
  const RemuxingMessage: string := "ffmpeg 컨테이너 변환 중…"

  function StartFoundMessage(start: nat): string { "시작 번호 발견: " + IntToString(start) }
  function EndFoundMessage(end: nat): string { "끝 번호 발견: " + IntToString(end) }
  function ResolvedMessage(url: string): string { "세그먼트 URL 발견: " + url }
  function ResolveFailedMessage(reason: string): string { "URL 추출 실패: " + reason }
  function SegmentFailedMessage(num: string, reason: string): string { num + " 다운로드 실패: " + reason }
  function NoFfmpegMessage(scratch: string): string { "ffmpeg가 없어 merged.ts만 생성했습니다: " + scratch }
  function FfmpegErrorMessage(reason: string): string { "ffmpeg 오류: " + reason }

  /** The status message announcing a detected range. */
  function RangeMessage(start: int, end: int): string
  {
    "탐지 완료: " + IntToString(start) + " ~ " + IntToString(end) + " (총 " + IntToString(end - start + 1) + "개)"
  }

  // ---------------------------------------------------------------------
  // Collaborators outside the worker

  /** The page-URL resolver (browser automation) as an answer. */
  datatype Resolution = Resolved(url: string) | ResolveFailed(reason: string)

  /** How the ffmpeg stream copy ends: done, binary not found, or a non-zero exit. */
  datatype Remux = RemuxOk | FfmpegMissing | FfmpegFailed(reason: string)

  /** URLs of a video page, which must be resolved to a segment folder first. */
  predicate IsPageUrl(url: string)
  {
    Contains(url, "yasyadong") && (Contains(url, "_Action=items") || Contains(url, "items_id"))
  }

  /** The segment folder a job downloads from: the stripped configured URL,
      or what the resolver makes of it when it is a page URL. */
  function FolderOf(cfg: JobConfig, resolve: string -> Resolution): Resolution
  {
    var url := Strip(cfg.baseFolderUrl);
    if IsPageUrl(url) then resolve(url) else Resolved(url)
  }

  function EndpointOf(cfg: JobConfig, net: Network, folder: string): Endpoint
  {
    Endpoint(net, SegmentBase(folder), cfg.zeroPad, cfg.retry)
  }

  // ---------------------------------------------------------------------
  // What the fetch loop does per index, as functions of the index

  /** What every index yields when fetched, and the zero-pad width its
      number is printed with. The fetch loop's bookkeeping below holds for
      any such table; `OutcomesOf` is the one the retry loop produces. */
  datatype Outcomes = Outcomes(at: nat -> SegmentResult, pad: int)

  function OutcomesOf(ep: Endpoint): (o: Outcomes)
    ensures Follows(o, ep)
  {
    Outcomes((i: nat) => SegmentAt(ep, i), ep.zeroPad)
  }

  /** `o` is what fetching from `ep` yields. */
  ghost predicate Follows(o: Outcomes, ep: Endpoint)
  {
    o.pad == ep.zeroPad && forall i {:trigger SegmentAt(ep, i)} :: o.at(i) == SegmentAt(ep, i)
  }

  /** The blob each index yields. */
  function Blobs(o: Outcomes): nat -> Option<seq<byte>>
  {
    (i: nat) => o.at(i).blob
  }

  /** The signals one index produces: the failure reported after its last
      attempt, then its progress signal if it was written. */
  function IndexEvents(o: Outcomes, i: nat): seq<Event>
  {
    var r := o.at(i);
    FailureEvents(o, i) + (if r.blob.Some? then [Progress(i, |r.blob.value|)] else [])
  }

  /** The failure reported after the last attempt of index `i`, if any. */
  function FailureEvents(o: Outcomes, i: nat): seq<Event>
  {
    var r := o.at(i);
    if r.failure.Some? then [Status(SegmentFailedMessage(ZFill(i, o.pad), r.failure.value))] else []
  }

  function LoopEvents(o: Outcomes, lo: nat, hi: nat): seq<Event>
    decreases hi - lo
  {
    if hi <= lo then [] else LoopEvents(o, lo, hi - 1) + IndexEvents(o, hi - 1)
  }

  function LoopDelays(o: Outcomes, lo: nat, hi: nat): seq<nat>
    decreases hi - lo
  {
    if hi <= lo then [] else LoopDelays(o, lo, hi - 1) + o.at(hi - 1).delays
  }

  /** A progress signal is emitted exactly for the indices that were written,
      in walking order, carrying the size of the blob written. */
  lemma {:induction false} ProgressMatchesWritten(o: Outcomes, lo: nat, hi: nat)
    ensures Progresses(LoopEvents(o, lo, hi)) == Sizes(Written(Blobs(o), lo, hi))
    decreases hi - lo, 1
  {
    if hi > lo {
      ProgressMatchesStep(o, lo, hi);
    } else {
      ProgressMatchesEmpty(o, lo, hi);
    }
  }

  lemma ProgressMatchesEmpty(o: Outcomes, lo: nat, hi: nat)
    requires hi <= lo
    ensures Progresses(LoopEvents(o, lo, hi)) == Sizes(Written(Blobs(o), lo, hi))
  {
    assert LoopEvents(o, lo, hi) == [] && Written(Blobs(o), lo, hi) == [];
  }

  lemma ProgressMatchesStep(o: Outcomes, lo: nat, hi: nat)
    requires lo < hi
    ensures Progresses(LoopEvents(o, lo, hi)) == Sizes(Written(Blobs(o), lo, hi))
    decreases hi - lo, 0
  {
    ProgressMatchesWritten(o, lo, hi - 1);
    ProgressStep(o, lo, hi);
    SizesStep(Blobs(o), lo, hi);
  }

  /** The progress entry index `i` contributes, if it yields a blob. */
  function Entry(at: nat -> Option<seq<byte>>, i: nat): seq<(nat, nat)>
  {
    if at(i).Some? then [(i, |at(i).value|)] else []
  }

  lemma ProgressStep(o: Outcomes, lo: nat, hi: nat)
    requires lo < hi
    ensures Progresses(LoopEvents(o, lo, hi)) == Progresses(LoopEvents(o, lo, hi - 1)) + Entry(Blobs(o), hi - 1)
  {
    IndexProgress(o, hi - 1);
    ProgressesSplit(LoopEvents(o, lo, hi), LoopEvents(o, lo, hi - 1), IndexEvents(o, hi - 1), Entry(Blobs(o), hi - 1));
  }

  lemma IndexProgress(o: Outcomes, i: nat)
    ensures Progresses(IndexEvents(o, i)) == Entry(Blobs(o), i)
  {
    var r := o.at(i);
    var fail := FailureEvents(o, i);
    var prog: seq<Event> := if r.blob.Some? then [Progress(i, |r.blob.value|)] else [];
    assert IndexEvents(o, i) == fail + prog;
    ProgressesAppend(fail, prog);
    assert Progresses(fail) == [] by {
      if fail != [] { assert fail[..0] == []; }
    }
    if prog != [] { assert prog[..0] == []; }
  }

  lemma SizesStep(at: nat -> Option<seq<byte>>, lo: nat, hi: nat)
    requires lo < hi
    ensures Sizes(Written(at, lo, hi)) == Sizes(Written(at, lo, hi - 1)) + Entry(at, hi - 1)
  {
    var cs := Written(at, lo, hi);
    if at(hi - 1).Some? {
      assert cs[..|cs| - 1] == Written(at, lo, hi - 1);
    } else {
      assert cs == Written(at, lo, hi - 1);
    }
  }

  /** The `(index, size)` pairs of the progress signals. */
  function Progresses(es: seq<Event>): seq<(nat, nat)>
  {
    if es == [] then []
    else Progresses(es[..|es| - 1]) + (if es[|es| - 1].Progress? then [(es[|es| - 1].index, es[|es| - 1].size)] else [])
  }

  function Sizes(cs: seq<Chunk>): seq<(nat, nat)>
  {
    if cs == [] then [] else Sizes(cs[..|cs| - 1]) + [(cs[|cs| - 1].index, |cs[|cs| - 1].bytes|)]
  }

  lemma ProgressesSplit(x: seq<Event>, a: seq<Event>, b: seq<Event>, e: seq<(nat, nat)>)
    requires x == a + b && Progresses(b) == e
    ensures Progresses(x) == Progresses(a) + e
  {
    ProgressesAppend(a, b);
  }

  lemma {:induction false} ProgressesAppend(a: seq<Event>, b: seq<Event>)
    ensures Progresses(a + b) == Progresses(a) + Progresses(b)
    decreases |b|
  {
    if b == [] {
      assert a + b == a;
    } else {
      assert (a + b)[..|a + b| - 1] == a + b[..|b| - 1];
      ProgressesAppend(a, b[..|b| - 1]);
    }
  }

  /** `3 if auto_detect and end else stop_after_n_404`. An `end` of 0 is
      falsy too. The lowered value can never matter: the threshold is only
      consulted when the end is unknown, and then it is the configured one. */
  function FailureThreshold(cfg: JobConfig, end: Option<nat>): (t: int)
    ensures end.None? ==> t == cfg.stopAfterN404
  {
    if cfg.autoDetect && end.Some? && end.value != 0 then 3 else cfg.stopAfterN404
  }

  /** Why the fetch loop ended. `OutOfFuel` is the model's iteration bound. */
  datatype LoopExit = Cancelled | EndReached | ThresholdReached | OutOfFuel

  // ---------------------------------------------------------------------
  // Scratch and output names

  /** `cfg.out_name or "output.mp4"`. */
  function OutputName(cfg: JobConfig): string
  {
    if cfg.outName == "" then "output.mp4" else cfg.outName
  }

  /** The output's extension: the name's own, ".mp4" when it has none. */
  function OutputExtension(cfg: JobConfig): (ext: string)
    ensures ext != [] && ext[0] == '.'
  {
    var ext := SplitExt(OutputName(cfg)).1;
    if ext == "" then ".mp4" else ext
  }

  /** The scratch TS path and the final output path: both are
      `<dir>/<base_name>_<unique_id>`, one with ".ts", the other with the
      output extension. */
  function OutputPaths(cfg: JobConfig, cwd: string, uid: string): (paths: (string, string))
    ensures EndsWith(paths.0, "_" + uid + ".ts")
    ensures paths.1 == paths.0[..|paths.0| - 3] + OutputExtension(cfg)
  {
    var baseName := SplitExt(OutputName(cfg)).0;
    var dir := if cfg.saveDir == "" then cwd else cfg.saveDir;
    var ext := OutputExtension(cfg);
    var scratch := Join(dir, baseName + "_" + uid + ".ts");
    var final := Join(dir, baseName + "_" + uid + ext);
    PathsShareStem(dir, baseName, uid, ext);
    (scratch, final)
  }

  lemma PathsShareStem(dir: string, baseName: string, uid: string, ext: string)
    ensures var scratch := Join(dir, baseName + "_" + uid + ".ts");
      && EndsWith(scratch, "_" + uid + ".ts")
      && Join(dir, baseName + "_" + uid + ext) == scratch[..|scratch| - 3] + ext
  {
    var stem := baseName + "_" + uid;
    var tail := "_" + uid + ".ts";
    assert stem + ".ts" == baseName + tail;
    ScratchEnds(dir, baseName, tail);
    SameStem(dir, stem, ext);
  }

  lemma ScratchEnds(dir: string, baseName: string, tail: string)
    ensures EndsWith(Join(dir, baseName + tail), tail)
  {
    EndsWithSuffix(baseName, tail);
    EndsWithTrans(Join(dir, baseName + tail), baseName + tail, tail);
  }

  lemma SameStem(dir: string, stem: string, ext: string)
    requires stem != []
    ensures var scratch := Join(dir, stem + ".ts");
      Join(dir, stem + ext) == scratch[..|scratch| - 3] + ext
  {
    JoinSuffix(dir, stem, ".ts");
    JoinSuffix(dir, stem, ext);
    var scratch := Join(dir, stem + ".ts");
    assert scratch[..|scratch| - 3] == Join(dir, stem);
  }

  lemma EndsWithTrans(a: string, b: string, c: string)
    requires EndsWith(a, b) && EndsWith(b, c)
    ensures EndsWith(a, c)
  {
    assert a[|a| - |c|..] == b[|b| - |c|..];
  }

  lemma EndsWithSuffix(a: string, b: string)
    ensures EndsWith(a + b, b)
  {
    assert (a + b)[|a + b| - |b|..] == b;
  }

  /** Joining a longer name only lengthens the joined path. */
  lemma JoinSuffix(dir: string, stem: string, suffix: string)
    requires stem != []
    ensures Join(dir, stem + suffix) == Join(dir, stem) + suffix
  {
    var b := stem + suffix;
    assert b[..1] == stem[..1];
    assert StartsWith(b, "/") == StartsWith(stem, "/");
    if StartsWith(stem, "/") {
    } else if dir == [] || EndsWith(dir, "/") {
      assert dir + b == (dir + stem) + suffix;
    } else {
      assert dir + "/" + b == (dir + "/" + stem) + suffix;
    }
  }

  // ---------------------------------------------------------------------

  /** `whole` is what the attempts from 1 on yield, given that the attempts
      from `attempt` on yield `rest` and every earlier one failed with a pause. */
  ghost predicate Resumes(whole: SegmentResult, attempt: nat, rest: SegmentResult)
    requires attempt >= 1
  {
    whole.blob == rest.blob && whole.failure == rest.failure && whole.delays == Iota(1, attempt) + rest.delays
  }

  lemma ResumesStep(whole: SegmentResult, attempt: nat, rest: SegmentResult, next: SegmentResult)
    requires attempt >= 1 && Resumes(whole, attempt, rest)
    requires rest.blob == next.blob && rest.failure == next.failure && rest.delays == [attempt] + next.delays
    ensures Resumes(whole, attempt + 1, next)
  {
    IotaStep(1, attempt);
  }

  lemma IotaStep(a: nat, b: nat)
    requires a <= b
    ensures Iota(a, b + 1) == Iota(a, b) + [b]
  {
  }

  // ---------------------------------------------------------------------
  // Searches interrupted part-way

  /** `whole` is the search that made the probes `done` and then went on
      as `rest`. */
  ghost predicate Continues(whole: Search, done: seq<nat>, rest: Search)
  {
    whole == Search(rest.last, done + rest.probes)
  }

  lemma ContinuesStep(whole: Search, done: seq<nat>, p: nat, rest: Search)
    requires Continues(whole, done, Search(rest.last, [p] + rest.probes))
    ensures Continues(whole, done + [p], rest)
  {
    assert done + ([p] + rest.probes) == (done + [p]) + rest.probes;
  }

  /** The probes left from `probe`: the first of them is `probe`, and past
      it either nothing (a miss) or the probes left from the next one. */
  lemma BracketFrom(ex: nat -> bool, probe: nat, step: nat)
    requires FirstStep <= step <= MaxStep && probe < MaxProbe
    ensures !ex(probe) ==> Bracket(ex, probe, step) == Search(probe, [probe] + [])
    ensures ex(probe) ==> var rest := Bracket(ex, probe + step, NextStep(step));
      Bracket(ex, probe, step) == Search(rest.last, [probe] + rest.probes)
  {
  }

  lemma ContinuesEnd(whole: Search, done: seq<nat>, last: nat)
    requires Continues(whole, done, Search(last, []))
    ensures whole == Search(last, done)
  {
    assert done + [] == done;
  }

  // ---------------------------------------------------------------------
  // Signals other than `done`

  predicate Silent(es: seq<Event>)
  {
    forall k :: 0 <= k < |es| ==> !es[k].Done?
  }

  /** A finished run's signals: `done` comes last and only there. */
  predicate Closes(es: seq<Event>)
  {
    es != [] && es[|es| - 1].Done? && Silent(es[..|es| - 1])
  }

  lemma ClosesAfter(a: seq<Event>, b: seq<Event>)
    requires Silent(a) && Closes(b)
    ensures Closes(a + b) && (a + b)[|a + b| - 1] == b[|b| - 1]
  {
    assert (a + b)[..|a + b| - 1] == a + b[..|b| - 1];
    SilentAppend(a, b[..|b| - 1]);
  }

  /** How `run` ends after the fetch loop: the stop flag read once more, then
      the empty-result check on `total_written`, then the stream copy. */
  function Ending(cancelled: bool, empty: bool, remux: Remux, scratch: string, final: string): seq<Event>
  {
    if cancelled then [Done(false, CancelledMessage)]
    else if empty then [Done(false, EmptyResultMessage)]
    else [Status(RemuxingMessage), match remux
      case RemuxOk => Done(true, final)
      case FfmpegMissing => Done(false, NoFfmpegMessage(scratch))
      case FfmpegFailed(e) => Done(false, FfmpegErrorMessage(e))]
  }

  /** Whether the scratch TS file is left on disk at the end. */
  function KeepsScratch(cancelled: bool, empty: bool, remux: Remux): bool
  {
    !cancelled && !empty && !remux.RemuxOk?
  }

  /** Every ending closes the run with exactly one `done`; it reports
      success exactly when the run was not cancelled, wrote something and
      the stream copy succeeded, and then it names the final output. */
  lemma EndingCloses(cancelled: bool, empty: bool, remux: Remux, scratch: string, final: string)
    ensures var es := Ending(cancelled, empty, remux, scratch, final);
      && Closes(es)
      && (es[|es| - 1].ok <==> !cancelled && !empty && remux.RemuxOk?)
      && (es[|es| - 1].ok ==> es[|es| - 1].message == final)
      && (cancelled ==> es[|es| - 1] == Done(false, CancelledMessage))
  {
    var es := Ending(cancelled, empty, remux, scratch, final);
    assert Silent(es[..|es| - 1]) by {
      if !cancelled && !empty { assert es[..|es| - 1] == [Status(RemuxingMessage)]; }
    }
  }

  /** The scratch file survives only a failed stream copy, and then the
      closing message says why. */
  lemma ScratchKeptOnlyOnRemuxFailure(cancelled: bool, empty: bool, remux: Remux, scratch: string, final: string)
    requires KeepsScratch(cancelled, empty, remux)
    ensures var es := Ending(cancelled, empty, remux, scratch, final);
      && !es[|es| - 1].ok
      && es[|es| - 1].message == (if remux.FfmpegMissing? then NoFfmpegMessage(scratch) else FfmpegErrorMessage(remux.reason))
  {
  }

  /** The signals of the download part of `run` before its ending: the
      start message, the fetch loop's, and the threshold message if the
      loop stopped on it. */
  function DownloadEvents(o: Outcomes, lo: nat, hi: nat, threshold: bool): seq<Event>
  {
    [Status(DownloadStartedMessage)] + LoopEvents(o, lo, hi) + (if threshold then [Status(ThresholdMessage)] else [])
  }

  /** None of them is a `done`. */
  lemma DownloadEventsSilent(o: Outcomes, lo: nat, hi: nat, threshold: bool)
    ensures Silent(DownloadEvents(o, lo, hi, threshold))
  {
    LoopEventsSilent(o, lo, hi);
    SilentAppend([Status(DownloadStartedMessage)], LoopEvents(o, lo, hi));
    SilentAppend([Status(DownloadStartedMessage)] + LoopEvents(o, lo, hi),
                 if threshold then [Status(ThresholdMessage)] else []);
  }

  lemma {:induction false} LoopEventsSilent(o: Outcomes, lo: nat, hi: nat)
    ensures Silent(LoopEvents(o, lo, hi))
    decreases hi - lo
  {
    if hi > lo {
      LoopEventsSilent(o, lo, hi - 1);
      IndexSilent(o, hi - 1);
      SilentAppend(LoopEvents(o, lo, hi - 1), IndexEvents(o, hi - 1));
    }
  }

  lemma IndexSilent(o: Outcomes, i: nat)
    ensures Silent(IndexEvents(o, i))
  {
  }

  lemma SilentAppend(a: seq<Event>, b: seq<Event>)
    requires Silent(a) && Silent(b)
    ensures Silent(a + b)
  {
    assert forall k :: 0 <= k < |a + b| ==> (a + b)[k] == if k < |a| then a[k] else b[k - |a|];
  }

  /** Walking one more index adds that index's part to every running
      quantity of the fetch loop. */
  lemma LoopStep(o: Outcomes, lo: nat, i: nat)
    requires lo <= i
    ensures LoopEvents(o, lo, i + 1) == LoopEvents(o, lo, i) + IndexEvents(o, i)
    ensures LoopDelays(o, lo, i + 1) == LoopDelays(o, lo, i) + o.at(i).delays
    ensures Misses(Blobs(o), lo, i + 1) == if o.at(i).blob.Some? then 0 else Misses(Blobs(o), lo, i) + 1
    ensures var b := o.at(i).blob;
      Flatten(Written(Blobs(o), lo, i + 1)) == Flatten(Written(Blobs(o), lo, i)) + (if b.Some? then b.value else [])
    ensures var b := o.at(i).blob;
      TotalSize(Written(Blobs(o), lo, i + 1)) == TotalSize(Written(Blobs(o), lo, i)) + (if b.Some? then |b.value| else 0)
  {
    WrittenStep(Blobs(o), lo, i);
  }

  /** The fetch loop has walked `[lo, hi)`: the sink, the running total,
      the failure count, the pauses and the signals (followed by `tail`) are
      exactly those of the walk, on top of what they were before it. */
  ghost predicate Walk(o: Outcomes, lo: nat, hi: nat, sink: seq<byte>, total: nat, n404: nat,
                       delays: seq<nat>, events: seq<Event>,
                       sink0: seq<byte>, delays0: seq<nat>, events0: seq<Event>, tail: seq<Event>)
  {
    && sink == sink0 + Flatten(Written(Blobs(o), lo, hi))
    && total == TotalSize(Written(Blobs(o), lo, hi))
    && n404 == Misses(Blobs(o), lo, hi)
    && delays == delays0 + LoopDelays(o, lo, hi)
    && events == events0 + LoopEvents(o, lo, hi) + tail
  }

  /** Walking an index that yields a blob: the blob is appended, the total
      grows by its size, the failure count restarts, and its pauses, its
      failure report and its progress signal are added. */
  lemma WalkWritten(o: Outcomes, lo: nat, i: nat, sink: seq<byte>, total: nat, n404: nat,
                    delays: seq<nat>, events: seq<Event>, sink0: seq<byte>, delays0: seq<nat>, events0: seq<Event>)
    requires lo <= i && o.at(i).blob.Some?
    requires Walk(o, lo, i, sink, total, n404, delays, events, sink0, delays0, events0, [])
    ensures var r := o.at(i);
      Walk(o, lo, i + 1, sink + r.blob.value, total + |r.blob.value|, 0, delays + r.delays,
           events + FailureEvents(o, i) + [Progress(i, |r.blob.value|)], sink0, delays0, events0, [])
  {
    LoopStep(o, lo, i);
    var r := o.at(i);
    var f, p := FailureEvents(o, i), [Progress(i, |r.blob.value|)];
    assert IndexEvents(o, i) == f + p;
    AppendAssoc(events, f, p);
    AppendAssoc(events0, LoopEvents(o, lo, i), f + p);
    AppendNil(events0 + LoopEvents(o, lo, i));
    AppendNil(events0 + LoopEvents(o, lo, i + 1));
    AppendAssoc(delays0, LoopDelays(o, lo, i), r.delays);
    AppendAssoc(sink0, Flatten(Written(Blobs(o), lo, i)), r.blob.value);
  }

  /** Walking an index that yields nothing: the sink and the total stay, the
      failure count grows by one, and its pauses and failure report are added
      (followed by `tail`). */
  lemma WalkMissed(o: Outcomes, lo: nat, i: nat, sink: seq<byte>, total: nat, n404: nat,
                   delays: seq<nat>, events: seq<Event>, sink0: seq<byte>, delays0: seq<nat>, events0: seq<Event>,
                   tail: seq<Event>)
    requires lo <= i && o.at(i).blob.None?
    requires Walk(o, lo, i, sink, total, n404, delays, events, sink0, delays0, events0, [])
    ensures Walk(o, lo, i + 1, sink, total, n404 + 1, delays + o.at(i).delays,
                 events + FailureEvents(o, i) + tail, sink0, delays0, events0, tail)
  {
    LoopStep(o, lo, i);
    var f := FailureEvents(o, i);
    assert IndexEvents(o, i) == f + [];
    AppendNil(f);
    AppendNil(events0 + LoopEvents(o, lo, i));
    AppendAssoc(events0, LoopEvents(o, lo, i), f);
    AppendAssoc(delays0, LoopDelays(o, lo, i), o.at(i).delays);
    AppendNil(sink0 + Flatten(Written(Blobs(o), lo, i)));
  }

  lemma AppendAssoc<T>(a: seq<T>, b: seq<T>, c: seq<T>)
    ensures a + b + c == a + (b + c)
  {
  }

  lemma AppendNil<T>(a: seq<T>)
    ensures a + [] == a
  {
  }

  /** No index walked in `[lo, hi)` failed with the consecutive-failure
      count reaching `t`: the threshold did not end the walk early. */
  ghost predicate BelowThreshold(o: Outcomes, lo: nat, hi: nat, t: int)
    decreases hi - lo
  {
    hi <= lo || (BelowThreshold(o, lo, hi - 1, t) && (o.at(hi - 1).blob.Some? || Misses(Blobs(o), lo, hi) < t))
  }

  lemma {:induction false} BelowThresholdMeans(o: Outcomes, lo: nat, hi: nat, t: int, j: nat)
    requires BelowThreshold(o, lo, hi, t) && lo <= j < hi && o.at(j).blob.None?
    ensures Misses(Blobs(o), lo, j + 1) < t
    decreases hi - lo
  {
    if j < hi - 1 {
      BelowThresholdMeans(o, lo, hi - 1, t, j);
    }
  }
}
