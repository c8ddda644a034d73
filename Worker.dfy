/** The download worker (workers.py `DownloadWorker`) as a class whose
    methods change its state the way the source's do.

    The outside world is given to the worker: `net` answers requests, and
    `cancelAt` is the read of the stop flag from which on a `stop()` request
    made by the interface thread is visible (none: never requested).
    Signals are appended to `events`, pauses to `delays`, and the scratch
    TS file is `sink` (the bytes appended to it) plus an existence flag. */
module Worker {
  import opened Text
  import opened Segments
  import opened RangeDetect
  import opened Fetch
  import opened Assembly
  import opened Config
  import opened WorkerSpec

  /** How auto-detection ends (the `auto_detect` block of `run`). */
  datatype Detection = Detected(start: nat, end: nat) | DetectCancelled | NothingFound

  /** The part of a worker's state the fetch loop reads and changes. */
  datatype Trace = Trace(sink: seq<byte>, delays: seq<nat>, events: seq<Event>, polls: nat, stopFlag: bool)

  class DownloadWorker {
    const cfg: JobConfig
    const net: Network
    const cancelAt: Option<nat>

    var stopFlag: bool               // `_stop`
    var polls: nat                   // how many times the flag has been read
    var events: seq<Event>           // signals emitted, in order
    var delays: seq<nat>             // `time.sleep` durations, in order
    var sink: seq<byte>              // bytes appended to the scratch TS file
    var scratch: Option<string>      // `_out_ts`
    var scratchExists: bool

    constructor (cfg: JobConfig, net: Network, cancelAt: Option<nat>)
      ensures this.cfg == cfg && this.net == net && this.cancelAt == cancelAt
      ensures !stopFlag && polls == 0 && events == [] && delays == [] && sink == []
      ensures scratch == None && !scratchExists
    {
      this.cfg := cfg;
      this.net := net;
      this.cancelAt := cancelAt;
      stopFlag := false;
      polls := 0;
      events := [];
      delays := [];
      sink := [];
      scratch := None;
      scratchExists := false;
    }

    /** Whether read number `k` of the flag (counting from 0) sees a stop request. */
    predicate StopVisible(k: nat)
    {
      cancelAt.Some? && cancelAt.value <= k
    }

    /** The flag after reads `p0 .. p1 - 1` starting from `f0`: it is set
        exactly when it was set before or the last of those reads sees a
        request (a request stays visible once it is). */
    predicate FlagAfter(f0: bool, p0: nat, p1: nat)
    {
      f0 || (p1 > p0 && StopVisible(p1 - 1))
    }

    /** One more read of the flag: a request visible at an earlier read is
        visible at every later one. */
    lemma FlagStep(f0: bool, p0: nat, p1: nat)
      requires p0 <= p1
      ensures FlagAfter(f0, p0, p1 + 1) == (FlagAfter(f0, p0, p1) || StopVisible(p1))
    {
    }

    /** Reads `p0 .. p1 - 1` followed by reads `p1 .. p2 - 1`. */
    lemma FlagChain(f0: bool, p0: nat, p1: nat, p2: nat)
      requires p0 <= p1 <= p2
      ensures FlagAfter(f0, p0, p2) == FlagAfter(FlagAfter(f0, p0, p1), p1, p2)
    {
    }

    /** `stop()`: ask the loops to stop at their next check. */
    method Stop()
      modifies this`stopFlag
      ensures stopFlag
    {
      stopFlag := true;
    }

    /** One read of `_stop`. */
    method PollStop() returns (stopped: bool)
      modifies this`stopFlag, this`polls
      ensures polls == old(polls) + 1
      ensures stopFlag == (old(stopFlag) || StopVisible(old(polls)))
      ensures stopped == stopFlag
    {
      stopFlag := stopFlag || StopVisible(polls);
      polls := polls + 1;
      stopped := stopFlag;
    }

    method Emit(e: Event)
      modifies this`events
      ensures events == old(events) + [e]
    {
      events := events + [e];
    }

    /** `_cleanup_temp_file`: remove the scratch file if there is one. */
    method CleanupScratch()
      modifies this`scratchExists
      ensures scratch.Some? ==> !scratchExists
      ensures scratch.None? ==> scratchExists == old(scratchExists)
    {
      if scratch.Some? && scratchExists {
        scratchExists := false;
      }
    }

    /** `_find_start` over the probe `ex` (`_probe_segment` on the segment
        base, `Exists`): try 0, then 1; the first that exists is the start,
        otherwise 1. A stop request makes it return 1 at once. */
    method FindStart(ex: nat -> bool) returns (start: nat)
      modifies this`stopFlag, this`polls, this`events
      ensures old(polls) < polls <= old(polls) + |StartCandidates|
      ensures stopFlag == FlagAfter(old(stopFlag), old(polls), polls)
      ensures stopFlag ==> start == FallbackStart
      ensures !stopFlag ==> start == StartSearch(ex)
      ensures var found := !stopFlag && ex(start);
        events == old(events) + [Status(DetectingStartMessage)] + (if found then [Status(StartFoundMessage(start))] else [])
    {
      Emit(Status(DetectingStartMessage));
      var n := 0;
      while n < |StartCandidates|
        invariant 0 <= n <= |StartCandidates|
        invariant polls == old(polls) + n
        invariant stopFlag == FlagAfter(old(stopFlag), old(polls), polls)
        invariant n > 0 ==> !stopFlag
        invariant forall m :: 0 <= m < n ==> !ex(StartCandidates[m])
        invariant events == old(events) + [Status(DetectingStartMessage)]
      {
        var candidate := StartCandidates[n];
        var stopped := PollStop();
        if stopped {
          return FallbackStart;
        }
        if ex(candidate) {
          Emit(Status(StartFoundMessage(candidate)));
          return candidate;
        }
        n := n + 1;
      }
      start := FallbackStart;
    }

    /** `_find_end`: phase 1 brackets the end by probing `start`,
        `start + 100`, ... with a step that doubles up to 1000, until a probe
        fails or the ceiling is reached; phase 2 binary-searches the bracket
        with the upper midpoint. The result is that of the uninterrupted
        search `EndSearch`, with one read of the flag per probe; a stop
        request seen by one of them ends it with `None`. */
    method FindEnd(ex: nat -> bool, start: nat) returns (end: Option<nat>)
      modifies this`stopFlag, this`polls, this`events
      ensures var search := EndSearch(ex, start);
        && (end.Some? ==> end.value == search.last && polls == old(polls) + |search.probes|)
        && (end.None? ==> old(polls) < polls <= old(polls) + |search.probes|)
      ensures stopFlag == FlagAfter(old(stopFlag), old(polls), polls)
      ensures end.None? ==> stopFlag
      ensures end.Some? ==> stopFlag == old(stopFlag)
      ensures events == old(events) + [Status(DetectingEndMessage)]
                        + (if end.Some? then [Status(EndFoundMessage(end.value))] else [])
    {
      Emit(Status(DetectingEndMessage));
      var probe, stopped := BracketEnd(ex, start);
      if stopped {
        return None;
      }
      var low;
      low, stopped := BisectEnd(ex, start, Min(probe, MaxProbe));
      if stopped {
        return None;
      }
      Emit(Status(EndFoundMessage(low)));
      end := Some(low);
    }

    /** Phase 1 of `_find_end`: `Bracket` with a read of the flag before
        each probe. */
    method BracketEnd(ex: nat -> bool, start: nat) returns (probe: nat, stopped: bool)
      modifies this`stopFlag, this`polls
      ensures var bracket := Bracket(ex, start, FirstStep);
        && (!stopped ==> probe == bracket.last && polls == old(polls) + |bracket.probes|)
        && (stopped ==> old(polls) < polls <= old(polls) + |bracket.probes|)
      ensures stopFlag == FlagAfter(old(stopFlag), old(polls), polls)
      ensures stopped ==> stopFlag
      ensures !stopped ==> stopFlag == old(stopFlag)
    {
      ghost var bracket := Bracket(ex, start, FirstStep);
      probe, stopped := start, false;
      var step := FirstStep;
      ghost var done: seq<nat> := [];
      while probe < MaxProbe
        invariant FirstStep <= step <= MaxStep
        invariant Continues(bracket, done, Bracket(ex, probe, step))
        invariant polls == old(polls) + |done|
        invariant stopFlag == FlagAfter(old(stopFlag), old(polls), polls)
        invariant |done| > 0 ==> !stopFlag
        invariant !stopped
        decreases MaxProbe - probe
      {
        BracketFrom(ex, probe, step);
        stopped := PollStop();
        if stopped {
          return;
        }
        if !ex(probe) {
          ContinuesStep(bracket, done, probe, Search(probe, []));
          done := done + [probe];
          break;
        }
        ghost var rest := Bracket(ex, probe + step, NextStep(step));
        ContinuesStep(bracket, done, probe, rest);
        done := done + [probe];
        probe := probe + step;
        step := NextStep(step);
      }
      if probe >= MaxProbe {
        assert Bracket(ex, probe, step) == Search(probe, []);
      }
      ContinuesEnd(bracket, done, probe);
    }

    /** Phase 2 of `_find_end`: `Bisect` with a read of the flag before
        each probe. */
    method BisectEnd(ex: nat -> bool, start: nat, top: nat) returns (low: nat, stopped: bool)
      modifies this`stopFlag, this`polls
      ensures var bisect := Bisect(ex, start, top);
        && (!stopped ==> low == bisect.last && polls == old(polls) + |bisect.probes|)
        && (stopped ==> old(polls) < polls <= old(polls) + |bisect.probes|)
      ensures stopFlag == FlagAfter(old(stopFlag), old(polls), polls)
      ensures stopped ==> stopFlag
      ensures !stopped ==> stopFlag == old(stopFlag)
    {
      ghost var bisect := Bisect(ex, start, top);
      low, stopped := start, false;
      var high: nat := top;
      ghost var done: seq<nat> := [];
      while low < high
        invariant Continues(bisect, done, Bisect(ex, low, high))
        invariant polls == old(polls) + |done|
        invariant stopFlag == FlagAfter(old(stopFlag), old(polls), polls)
        invariant |done| > 0 ==> !stopFlag
        invariant !stopped
        decreases high - low
      {
        stopped := PollStop();
        if stopped {
          assert |Bisect(ex, low, high).probes| > 0;
          return;
        }
        var mid := (low + high + 1) / 2;
        ghost var rest := if ex(mid) then Bisect(ex, mid, high) else Bisect(ex, low, mid - 1);
        assert Bisect(ex, low, high) == Search(rest.last, [mid] + rest.probes);
        ContinuesStep(bisect, done, mid, rest);
        if ex(mid) {
          low := mid;
        } else {
          high := mid - 1;
        }
        done := done + [mid];
      }
      assert Bisect(ex, low, high) == Search(low, []);
      ContinuesEnd(bisect, done, low);
    }

    /** The `auto_detect` block of `run`: the start, a read of the flag, the
        end, another read of the flag, then the range check and the range
        message. `es` are the signals it emits. */
    method Detect(ex: nat -> bool) returns (d: Detection, ghost es: seq<Event>)
      modifies this`stopFlag, this`polls, this`events
      ensures events == old(events) + es
      ensures old(polls) < polls && stopFlag == FlagAfter(old(stopFlag), old(polls), polls)
      ensures d.DetectCancelled? <==> stopFlag
      ensures d.Detected? ==>
        && d.start == StartSearch(ex) && d.end == EndSearch(ex, d.start).last
        && Silent(es) && es != [] && es[|es| - 1] == Status(RangeMessage(d.start, d.end))
      ensures d.DetectCancelled? ==> Closes(es) && es[|es| - 1] == Done(false, CancelledMessage)
      ensures d.NothingFound? ==> Closes(es) && es[|es| - 1] == Done(false, NoSegmentsMessage)
    {
      ghost var e0, p0 := events, polls;
      var start := FindStart(ex);
      ghost var found: seq<Event> := [Status(DetectingStartMessage)]
        + (if !stopFlag && ex(start) then [Status(StartFoundMessage(start))] else []);
      AppendAssoc(e0, [Status(DetectingStartMessage)], found[1..]);
      assert events == e0 + found;
      ghost var p1 := polls;
      var stopped := PollStop();
      FlagStep(old(stopFlag), p0, p1);
      if stopped {
        Emit(Done(false, CancelledMessage));
        AppendAssoc(e0, found, [Done(false, CancelledMessage)]);
        ClosesAfter(found, [Done(false, CancelledMessage)]);
        d, es := DetectCancelled, found + [Done(false, CancelledMessage)];
        return;
      }
      ghost var e1 := events;
      var end := FindEnd(ex, start);
      ghost var searched: seq<Event> := [Status(DetectingEndMessage)]
        + (if end.Some? then [Status(EndFoundMessage(end.value))] else []);
      AppendAssoc(e1, [Status(DetectingEndMessage)], searched[1..]);
      AppendAssoc(e0, found, searched);
      SilentAppend(found, searched);
      es := found + searched;
      assert events == e0 + es;
      FlagChain(old(stopFlag), p0, p1 + 1, polls);
      ghost var p2 := polls;
      stopped := PollStop();
      FlagStep(old(stopFlag), p0, p2);
      if stopped {
        Emit(Done(false, CancelledMessage));
        AppendAssoc(e0, es, [Done(false, CancelledMessage)]);
        ClosesAfter(es, [Done(false, CancelledMessage)]);
        d, es := DetectCancelled, es + [Done(false, CancelledMessage)];
        return;
      }
      if end.None? || end.value < start {
        Emit(Done(false, NoSegmentsMessage));
        AppendAssoc(e0, es, [Done(false, NoSegmentsMessage)]);
        ClosesAfter(es, [Done(false, NoSegmentsMessage)]);
        d, es := NothingFound, es + [Done(false, NoSegmentsMessage)];
        return;
      }
      Emit(Status(RangeMessage(start, end.value)));
      AppendAssoc(e0, es, [Status(RangeMessage(start, end.value))]);
      SilentAppend(es, [Status(RangeMessage(start, end.value))]);
      d, es := Detected(start, end.value), es + [Status(RangeMessage(start, end.value))];
    }

    /** What `run` does after the fetch loop: a read of the flag (a stop
        request removes the scratch file), the empty-result check, then the
        stream copy, whose success removes the scratch file too. */
    method Finish(total: nat, remux: Remux, final: string)
      requires scratch.Some? && scratchExists && total == |sink|
      modifies this`stopFlag, this`polls, this`events, this`scratchExists
      ensures polls == old(polls) + 1 && stopFlag == (old(stopFlag) || StopVisible(old(polls)))
      ensures events == old(events) + Ending(stopFlag, sink == [], remux, scratch.value, final)
      ensures scratchExists == KeepsScratch(stopFlag, sink == [], remux)
    {
      var stopped := PollStop();
      if stopped {
        CleanupScratch();
        Emit(Done(false, CancelledMessage));
        return;
      }
      if total == 0 {
        CleanupScratch();
        Emit(Done(false, EmptyResultMessage));
        return;
      }
      Emit(Status(RemuxingMessage));
      match remux
      case RemuxOk =>
        CleanupScratch();
        Emit(Done(true, final));
      case FfmpegMissing =>
        Emit(Done(false, NoFfmpegMessage(scratch.value)));
      case FfmpegFailed(e) =>
        Emit(Done(false, FfmpegErrorMessage(e)));
    }

    /** The download part of `run` for a known `start` and optional `end`:
        the scratch and output names, a fresh scratch file, the fetch loop
        over `[start, next)`, then `Finish`. `Ending`'s arguments are the
        flag, whether nothing was written and the stream copy's outcome.
        Without a known end, `fuel` bounds the loop; a model run that uses
        it up is unfinished. */
    method Transfer(ep: Endpoint, ghost o: Outcomes, start: nat, end: Option<nat>,
                    scratchName: string, final: string, remux: Remux, fuel: nat)
      returns (finished: bool, ghost next: nat, ghost threshold: bool)
      requires Follows(o, ep)
      modifies this`stopFlag, this`polls, this`events, this`delays, this`sink, this`scratch, this`scratchExists
      ensures && scratch == Some(scratchName)
        && sink == Flatten(Written(Blobs(o), start, next))
        && delays == old(delays) + LoopDelays(o, start, next)
        && events == old(events) + DownloadEvents(o, start, next, threshold)
             + (if finished then Ending(stopFlag, sink == [], remux, scratchName, final) else [])
        && scratchExists == (!finished || KeepsScratch(stopFlag, sink == [], remux))
      ensures start <= next
      ensures threshold ==> end.None? && Misses(Blobs(o), start, next) >= FailureThreshold(cfg, end)
      ensures end.Some? ==> next <= Max(start, end.value + 1) && !threshold
      ensures end.Some? && start + fuel >= end.value + 1 ==> finished
      ensures old(polls) < polls && stopFlag == FlagAfter(old(stopFlag), old(polls), polls)
      ensures finished && !stopFlag && end.Some? ==> next == Max(start, end.value + 1)
    {
      var total, exit;
      next, total, exit := WriteScratch(ep, o, start, end, scratchName, fuel);
      threshold := exit == ThresholdReached;
      if exit == OutOfFuel {
        return false, next, threshold;
      }
      FlagStep(old(stopFlag), old(polls), polls);
      Finish(total, remux, final);
      finished := true;
    }

    /** A fresh scratch file, the start signal, then the fetch loop over
        `[start, next)` writing into the scratch file. */
    method WriteScratch(ep: Endpoint, ghost o: Outcomes, start: nat, end: Option<nat>, scratchName: string, fuel: nat)
      returns (next: nat, total: nat, exit: LoopExit)
      requires Follows(o, ep)
      modifies this`stopFlag, this`polls, this`events, this`delays, this`sink, this`scratch, this`scratchExists
      ensures scratch == Some(scratchName) && scratchExists
      ensures sink == Flatten(Written(Blobs(o), start, next)) && total == |sink|
      ensures delays == old(delays) + LoopDelays(o, start, next)
      ensures events == old(events) + DownloadEvents(o, start, next, exit == ThresholdReached)
      ensures start <= next
      ensures old(polls) < polls && stopFlag == FlagAfter(old(stopFlag), old(polls), polls)
      ensures exit == Cancelled <==> stopFlag
      ensures exit == EndReached ==> end.Some? && next == Max(start, end.value + 1)
      ensures exit == ThresholdReached ==> end.None? && Misses(Blobs(o), start, next) >= FailureThreshold(cfg, end)
      ensures end.Some? ==> next <= Max(start, end.value + 1) && exit != ThresholdReached
      ensures end.Some? && start + fuel >= end.value + 1 ==> exit != OutOfFuel
    {
      scratch := Some(scratchName);
      sink := [];
      scratchExists := true;
      Emit(Status(DownloadStartedMessage));
      var n404;
      next, n404, total, exit := FetchLoop(ep, o, start, end, fuel);
      ghost var tail: seq<Event> := if exit == ThresholdReached then [Status(ThresholdMessage)] else [];
      AppendAssoc(old(events), [Status(DownloadStartedMessage)], LoopEvents(o, start, next));
      AppendAssoc(old(events), [Status(DownloadStartedMessage)] + LoopEvents(o, start, next), tail);
      FlattenSize(Written(Blobs(o), start, next));
    }

    /** What every way out of `run` guarantees, for the signals `es` it
        emitted and the scratch and final names `paths`: a finished run
        ends with exactly one `done`, an unfinished one has emitted none; a
        successful `done` names the final output and comes only after a
        non-empty, uncancelled download and a working stream copy, which
        removed the scratch file, and such a download always succeeds; a
        scratch file is left behind only when the stream copy failed (or
        the model's fuel ran out), and then the `done` is a failure. */
    ghost predicate Concluded(es: seq<Event>, finished: bool, paths: (string, string), remux: Remux)
      reads this
    {
      && (finished ==> Closes(es))
      && (!finished ==> Silent(es))
      && (finished && es[|es| - 1].ok ==>
            !stopFlag && sink != [] && remux.RemuxOk? && !scratchExists && es[|es| - 1].message == paths.1)
      && (finished && !stopFlag && sink != [] && remux.RemuxOk? ==> es[|es| - 1].ok)
      && (scratchExists ==> scratch == Some(paths.0) && (finished ==> !remux.RemuxOk? && !es[|es| - 1].ok))
    }

    /** A run that ends on a lone failure signal, before anything was
        written. */
    lemma ConcludedAtOnce(message: string, paths: (string, string), remux: Remux)
      requires sink == [] && !scratchExists
      ensures Concluded([Done(false, message)], true, paths, remux)
    {
      assert [Done(false, message)][..0] == [];
    }

    /** A silent prefix keeps a run's guarantees. */
    lemma ConcludedAfter(pre: seq<Event>, es: seq<Event>, finished: bool, paths: (string, string), remux: Remux)
      requires Silent(pre) && Concluded(es, finished, paths, remux)
      ensures Concluded(pre + es, finished, paths, remux)
      ensures finished ==> (pre + es)[|pre + es| - 1] == es[|es| - 1]
    {
      if finished {
        ClosesAfter(pre, es);
      } else {
        SilentAppend(pre, es);
      }
    }

    /** The download part of `run` (`Transfer`) and what it guarantees
        about the run's end. */
    method Download(ep: Endpoint, ghost o: Outcomes, start: nat, end: Option<nat>,
                    paths: (string, string), remux: Remux, fuel: nat)
      returns (finished: bool, ghost es: seq<Event>, ghost next: nat)
      requires Follows(o, ep) && !scratchExists
      modifies this`stopFlag, this`polls, this`events, this`delays, this`sink, this`scratch, this`scratchExists
      ensures events == old(events) + es
      ensures Concluded(es, finished, paths, remux)
      ensures finished && stopFlag ==> es[|es| - 1] == Done(false, CancelledMessage)
      ensures old(polls) < polls && stopFlag == FlagAfter(old(stopFlag), old(polls), polls)
      ensures start <= next && sink == Flatten(Written(Blobs(o), start, next))
      ensures end.Some? ==> next <= Max(start, end.value + 1)
      ensures end.Some? && start + fuel >= end.value + 1 ==> finished
    {
      ghost var threshold;
      finished, next, threshold := Transfer(ep, o, start, end, paths.0, paths.1, remux, fuel);
      ghost var de := DownloadEvents(o, start, next, threshold);
      ghost var ending := if finished then Ending(stopFlag, sink == [], remux, paths.0, paths.1) else [];
      AppendAssoc(old(events), de, ending);
      es := de + ending;
      DownloadEventsSilent(o, start, next, threshold);
      if finished {
        EndingCloses(stopFlag, sink == [], remux, paths.0, paths.1);
        ClosesAfter(de, ending);
      } else {
        AppendNil(de);
      }
    }

    /** The range `run` downloads: the configured one, or the detected one
        when auto-detection is on (`None` when detection ended the run). */
    method Range(ex: nat -> bool) returns (range: Option<(nat, Option<nat>)>, ghost es: seq<Event>)
      modifies this`stopFlag, this`polls, this`events
      ensures events == old(events) + es
      ensures old(polls) <= polls && stopFlag == FlagAfter(old(stopFlag), old(polls), polls)
      ensures range.None? ==> Closes(es) && !es[|es| - 1].ok && (stopFlag ==> es[|es| - 1] == Done(false, CancelledMessage))
      ensures range.Some? ==> Silent(es)
      ensures !cfg.autoDetect ==> range == Some((cfg.start, cfg.end)) && es == []
      ensures cfg.autoDetect && range.Some? ==>
        && range.value.0 == StartSearch(ex) && range.value.1 == Some(EndSearch(ex, range.value.0).last)
        && range.value.0 <= EndSearch(ex, range.value.0).last <= Max(range.value.0, MaxProbe)
    {
      if !cfg.autoDetect {
        return Some((cfg.start, cfg.end)), [];
      }
      var d;
      d, es := Detect(ex);
      if !d.Detected? {
        return None, es;
      }
      EndSearchBounds(ex, d.start);
      range := Some((d.start, Some(d.end)));
    }

    /** `run` from the segment folder on: `Range`, then the download of
        `[first, next)`. */
    method RunFolder(folder: string, paths: (string, string), remux: Remux, fuel: nat)
      returns (finished: bool, ghost es: seq<Event>, ghost first: nat, ghost next: nat)
      requires sink == [] && !scratchExists
      modifies this`stopFlag, this`polls, this`events, this`delays, this`sink, this`scratch, this`scratchExists
      ensures events == old(events) + es
      ensures Concluded(es, finished, paths, remux)
      ensures finished && stopFlag ==> es[|es| - 1] == Done(false, CancelledMessage)
      ensures stopFlag == FlagAfter(old(stopFlag), old(polls), polls)
      ensures first <= next && sink == Flatten(Written(Blobs(OutcomesOf(EndpointOf(cfg, net, folder))), first, next))
      ensures !cfg.autoDetect ==> first == cfg.start
      ensures !cfg.autoDetect && cfg.end.Some? ==> next <= Max(first, cfg.end.value + 1)
      ensures cfg.autoDetect && first < next ==>
        var ex := Exists(net, SegmentBase(folder), cfg.zeroPad);
        first == StartSearch(ex) && next <= EndSearch(ex, first).last + 1
      ensures cfg.autoDetect && fuel > MaxProbe ==> finished
    {
      var ep := EndpointOf(cfg, net, folder);
      var range, pre := Range(Exists(net, ep.base, cfg.zeroPad));
      if range.None? {
        finished, es, first, next := true, pre, 0, 0;
        return;
      }
      var start, end := range.value.0, range.value.1;
      ghost var rest, p1 := [], polls;
      first := start;
      finished, rest, next := Download(ep, OutcomesOf(ep), start, end, paths, remux, fuel);
      FlagChain(old(stopFlag), old(polls), p1, polls);
      AppendAssoc(old(events), pre, rest);
      ConcludedAfter(pre, rest, finished, paths, remux);
      es := pre + rest;
    }

    /** The start of `run`: the configured URL, stripped, resolved first
        when it is a video page. A failed resolution ends the run. */
    method Locate(resolve: string -> Resolution) returns (folder: Option<string>, ghost es: seq<Event>)
      modifies this`events
      ensures events == old(events) + es
      ensures match FolderOf(cfg, resolve)
        case ResolveFailed(e) => folder.None? && es == [Done(false, ResolveFailedMessage(e))]
        case Resolved(u) => folder == Some(u) && Silent(es)
    {
      var url := Strip(cfg.baseFolderUrl);
      if IsPageUrl(url) {
        match resolve(url)
        case ResolveFailed(e) =>
          Emit(Done(false, ResolveFailedMessage(e)));
          return None, [Done(false, ResolveFailedMessage(e))];
        case Resolved(u) =>
          Emit(Status(ResolvedMessage(u)));
          return Some(u), [Status(ResolvedMessage(u))];
      }
      return Some(url), [];
    }

    /** `run`: `Locate`, then `RunFolder` with the scratch and final names
        for the unique id `uid`. */
    method Run(resolve: string -> Resolution, uid: string, cwd: string, remux: Remux, fuel: nat)
      returns (finished: bool, ghost es: seq<Event>, ghost first: nat, ghost next: nat)
      requires sink == [] && !scratchExists
      modifies this`stopFlag, this`polls, this`events, this`delays, this`sink, this`scratch, this`scratchExists
      ensures events == old(events) + es
      ensures Concluded(es, finished, OutputPaths(cfg, cwd, uid), remux)
      ensures match FolderOf(cfg, resolve)
        case ResolveFailed(e) => finished && es == [Done(false, ResolveFailedMessage(e))] && sink == []
        case Resolved(folder) =>
          && (finished && stopFlag ==> es[|es| - 1] == Done(false, CancelledMessage))
          && first <= next && sink == Flatten(Written(Blobs(OutcomesOf(EndpointOf(cfg, net, folder))), first, next))
          && (!cfg.autoDetect ==> first == cfg.start)
      ensures stopFlag == FlagAfter(old(stopFlag), old(polls), polls)
    {
      var folder, pre := Locate(resolve);
      if folder.None? {
        ConcludedAtOnce(pre[0].message, OutputPaths(cfg, cwd, uid), remux);
        finished, es, first, next := true, pre, 0, 0;
        return;
      }
      var paths := OutputPaths(cfg, cwd, uid);
      ghost var rest;
      finished, rest, first, next := RunFolder(folder.value, paths, remux, fuel);
      AppendAssoc(old(events), pre, rest);
      ConcludedAfter(pre, rest, finished, paths, remux);
      es := pre + rest;
    }

    /** The retry loop for index `i`: what `SegmentAt` says it yields is
        appended to the scratch file, its pauses are taken, and its failure,
        if any, is reported. */
    method FetchSegment(ep: Endpoint, i: nat) returns (ok: bool, lastSize: nat)
      modifies this`sink, this`events, this`delays
      ensures var r := SegmentAt(ep, i);
        && ok == r.blob.Some?
        && sink == old(sink) + (if ok then r.blob.value else [])
        && lastSize == (if ok then |r.blob.value| else 0)
        && delays == old(delays) + r.delays
        && events == old(events)
             + (if r.failure.Some? then [Status(SegmentFailedMessage(ZFill(i, ep.zeroPad), r.failure.value))] else [])
    {
      var num := ZFill(i, ep.zeroPad);
      var url := ep.base + num + SegmentExtension;
      ghost var whole := Retry(ep.net.get, url, ep.retry, 1);
      assert whole == SegmentAt(ep, i);
      ok, lastSize := false, 0;
      var attempt := 1;
      while attempt <= ep.retry
        invariant 1 <= attempt
        invariant Resumes(whole, attempt, Retry(ep.net.get, url, ep.retry, attempt))
        invariant delays == old(delays) + Iota(1, attempt)
        invariant sink == old(sink) && events == old(events) && !ok && lastSize == 0
        decreases ep.retry - attempt
      {
        ghost var rest := Retry(ep.net.get, url, ep.retry, attempt);
        var again;
        again, ok, lastSize := TryOnce(url, num, attempt, ep.net.get, ep.retry);
        if !again {
          break;
        }
        ResumesStep(whole, attempt, rest, Retry(ep.net.get, url, ep.retry, attempt + 1));
        attempt := attempt + 1;
      }
    }

    /** One attempt of the retry loop: a GET of `url`. A 404, a written TS
        payload or the last failure end the attempts; any other failure
        pauses `attempt` seconds before the next one. */
    method TryOnce(url: string, num: string, attempt: nat, get: (string, nat) -> Outcome, retry: int)
      returns (again: bool, ok: bool, size: nat)
      requires 1 <= attempt <= retry
      modifies this`sink, this`events, this`delays
      ensures var rest := Retry(get, url, retry, attempt);
        && (again ==> attempt < retry && !ok && size == 0)
        && (again ==> delays == old(delays) + [attempt] && sink == old(sink) && events == old(events))
        && (again ==> var next := Retry(get, url, retry, attempt + 1);
              rest.blob == next.blob && rest.failure == next.failure && rest.delays == [attempt] + next.delays)
        && (!again ==> delays == old(delays) && rest.delays == [] && ok == rest.blob.Some?)
        && (!again ==> sink == old(sink) + (if ok then rest.blob.value else []) && size == (if ok then |rest.blob.value| else 0))
        && (!again ==> events == old(events) + (if rest.failure.Some? then [Status(SegmentFailedMessage(num, rest.failure.value))] else []))
    {
      again, ok, size := false, false, 0;
      var outcome := get(url, attempt);
      if outcome.NotFound? {
        return;
      }
      if outcome.Body? && IsTsPayload(outcome.bytes) {
        sink := sink + outcome.bytes;
        size := |outcome.bytes|;
        ok := true;
        return;
      }
      var reason := if outcome.Body? then BadSegmentMessage else outcome.reason;
      assert Classify(outcome) == Error(reason);
      if attempt == retry {
        Emit(Status(SegmentFailedMessage(num, reason)));
        return;
      }
      delays := delays + [attempt];
      again := true;
    }

    /** What the fetch loop reads and changes of the worker's state. */
    ghost function Now(): Trace
      reads this
    {
      Trace(sink, delays, events, polls, stopFlag)
    }

    /** The state at the head of a turn of the fetch loop that began in
        state `t0`, about to fetch index `next`. */
    ghost predicate Turning(o: Outcomes, start: nat, end: Option<nat>, fuel: nat,
                            next: nat, n404: nat, total: nat, t0: Trace, t: Trace)
    {
      && start <= next <= start + fuel
      && Walk(o, start, next, t.sink, total, n404, t.delays, t.events, t0.sink, t0.delays, t0.events, [])
      && t.polls == t0.polls + (next - start)
      && t.stopFlag == FlagAfter(t0.stopFlag, t0.polls, t.polls)
      && (next > start ==> !t.stopFlag)
      && (end.Some? ==> next <= Max(start, end.value + 1))
      && (end.None? ==> BelowThreshold(o, start, next, FailureThreshold(cfg, end)))
    }

    /** The fetch loop's guarantees when it ends with `exit` after walking
        `[start, next)`: the walk, one read of the flag per turn (none after
        the threshold `break`), and why it ended. */
    ghost predicate Ended(o: Outcomes, start: nat, end: Option<nat>, fuel: nat,
                          next: nat, n404: nat, total: nat, exit: LoopExit, t0: Trace, t: Trace)
    {
      var tail := if exit == ThresholdReached then [Status(ThresholdMessage)] else [];
      && start <= next <= start + fuel
      && Walk(o, start, next, t.sink, total, n404, t.delays, t.events, t0.sink, t0.delays, t0.events, tail)
      && t.polls == t0.polls + (next - start) + (if exit == ThresholdReached then 0 else 1)
      && t.stopFlag == FlagAfter(t0.stopFlag, t0.polls, t.polls)
      && (exit == Cancelled <==> t.stopFlag)
      && (exit == EndReached ==> end.Some? && next == Max(start, end.value + 1))
      && (exit == ThresholdReached ==> end.None? && next > start && n404 >= FailureThreshold(cfg, end))
      && (exit == OutOfFuel ==> next == start + fuel)
      && (end.Some? ==> next <= Max(start, end.value + 1))
      && (end.Some? && start + fuel >= end.value + 1 ==> exit != OutOfFuel)
      && (end.None? ==> BelowThreshold(o, start, if exit == ThresholdReached then next - 1 else next, FailureThreshold(cfg, end)))
    }

    /** Nothing walked yet. */
    lemma TurningAtStart(o: Outcomes, start: nat, end: Option<nat>, fuel: nat, t0: Trace)
      ensures Turning(o, start, end, fuel, start, 0, 0, t0, t0)
    {
      assert t0.events == t0.events + [] + [];
      assert t0.sink == t0.sink + [] && t0.delays == t0.delays + [];
    }

    /** The loop ends at the head of a turn, on the verdict `v` of the checks
        that took it from `t` to `t'`. */
    lemma EndsAtHead(o: Outcomes, start: nat, end: Option<nat>, fuel: nat,
                     next: nat, n404: nat, total: nat, v: LoopExit, t0: Trace, t: Trace, t': Trace)
      requires Turning(o, start, end, fuel, next, n404, total, t0, t)
      requires t' == t.(polls := t.polls + 1, stopFlag := t.stopFlag || StopVisible(t.polls))
      requires Verdict(start, end, fuel, next, Some(v), t'.stopFlag)
      ensures Ended(o, start, end, fuel, next, n404, total, v, t0, t')
    {
      FlagStep(t0.stopFlag, t0.polls, t.polls);
    }

    /** The turn for `next` passed the checks (`t` to `t'`) and the index was
        walked (`t'` to `t''`): either the loop goes on or it hit the threshold. */
    lemma TurnWalked(o: Outcomes, start: nat, end: Option<nat>, fuel: nat, next: nat, n404: nat, total: nat,
                     n404': nat, total': nat, halt: bool, t0: Trace, t: Trace, t': Trace, t'': Trace)
      requires Turning(o, start, end, fuel, next, n404, total, t0, t)
      requires t' == t.(polls := t.polls + 1, stopFlag := t.stopFlag || StopVisible(t.polls))
      requires Verdict(start, end, fuel, next, None, t'.stopFlag)
      requires t''.polls == t'.polls && t''.stopFlag == t'.stopFlag
      requires Stepped(o, start, end, next, n404', total', halt, t0.sink, t0.delays, t0.events, t''.sink, t''.delays, t''.events)
      ensures !halt ==> Turning(o, start, end, fuel, next + 1, n404', total', t0, t'')
      ensures halt ==> Ended(o, start, end, fuel, next + 1, n404', total', ThresholdReached, t0, t'')
    {
      FlagStep(t0.stopFlag, t0.polls, t.polls);
    }

    /** The `while not self._stop` loop of `run`, bounded by `fuel`
        iterations. Index `next` is walked from `start` up (`Walk`); the
        loop ends on a stop request, past a known end, on the failure
        threshold when the end is unknown, or when the fuel runs out. */
    method FetchLoop(ep: Endpoint, ghost o: Outcomes, start: nat, end: Option<nat>, fuel: nat)
      returns (next: nat, n404: nat, total: nat, exit: LoopExit)
      requires Follows(o, ep)
      modifies this`stopFlag, this`polls, this`events, this`delays, this`sink
      ensures Ended(o, start, end, fuel, next, n404, total, exit, old(Now()), Now())
    {
      ghost var t0 := Now();
      next, n404, total := start, 0, 0;
      TurningAtStart(o, start, end, fuel, t0);
      while true
        invariant t0 == old(Now())
        invariant Turning(o, start, end, fuel, next, n404, total, t0, Now())
        decreases start + fuel - next
      {
        ghost var t := Now();
        var verdict := CheckTurn(start, end, fuel, next);
        if verdict.Some? {
          exit := verdict.value;
          EndsAtHead(o, start, end, fuel, next, n404, total, exit, t0, t, Now());
          return;
        }
        var halt;
        n404, total, halt := Step(ep, o, start, end, fuel, next, n404, total, t0, t);
        next := next + 1;
        if halt {
          exit := ThresholdReached;
          return;
        }
      }
    }

    /** The rest of a turn that passed the checks (`t` to now): index `next`
        is walked. */
    method Step(ep: Endpoint, ghost o: Outcomes, start: nat, end: Option<nat>, fuel: nat,
                next: nat, n404: nat, total: nat, ghost t0: Trace, ghost t: Trace)
      returns (n404': nat, total': nat, halt: bool)
      requires Follows(o, ep)
      requires Turning(o, start, end, fuel, next, n404, total, t0, t)
      requires Now() == t.(polls := t.polls + 1, stopFlag := t.stopFlag || StopVisible(t.polls))
      requires Verdict(start, end, fuel, next, None, stopFlag)
      modifies this`events, this`delays, this`sink
      ensures !halt ==> Turning(o, start, end, fuel, next + 1, n404', total', t0, Now())
      ensures halt ==> Ended(o, start, end, fuel, next + 1, n404', total', ThresholdReached, t0, Now())
    {
      ghost var t' := Now();
      n404', total', halt := Advance(ep, o, start, next, end, n404, total, t0.sink, t0.delays, t0.events);
      TurnWalked(o, start, end, fuel, next, n404, total, n404', total', halt, t0, t, t', Now());
    }

    /** The outcome of the checks at the head of a turn, in order: a stop
        request, a known end already passed, the model's iteration bound;
        `None` when the turn goes on. */
    ghost predicate Verdict(start: nat, end: Option<nat>, fuel: nat, next: nat, verdict: Option<LoopExit>, stopped: bool)
    {
      && (verdict == Some(Cancelled) <==> stopped)
      && (verdict == Some(EndReached) <==> !stopped && end.Some? && next > end.value)
      && (verdict == Some(OutOfFuel) <==> !stopped && !(end.Some? && next > end.value) && next - start == fuel)
      && verdict != Some(ThresholdReached)
    }

    /** The checks at the head of each turn of the fetch loop: the stop
        flag, the known end, and the model's iteration bound. */
    method CheckTurn(start: nat, end: Option<nat>, fuel: nat, next: nat) returns (verdict: Option<LoopExit>)
      requires start <= next
      modifies this`stopFlag, this`polls
      ensures polls == old(polls) + 1
      ensures stopFlag == (old(stopFlag) || StopVisible(old(polls)))
      ensures Verdict(start, end, fuel, next, verdict, stopFlag)
    {
      var stopped := PollStop();
      if stopped {
        return Some(Cancelled);
      }
      if end.Some? && next > end.value {
        return Some(EndReached);
      }
      if next - start == fuel {
        return Some(OutOfFuel);
      }
      return None;
    }

    /** Index `i` was walked: `[start, i + 1)` is written, and `halt` says
        whether the failure threshold was reached there, its signal then
        ending the walk's signals. */
    ghost predicate Stepped(o: Outcomes, start: nat, end: Option<nat>, i: nat, n404: nat, total: nat, halt: bool,
                            sink0: seq<byte>, delays0: seq<nat>, events0: seq<Event>,
                            sink: seq<byte>, delays: seq<nat>, events: seq<Event>)
    {
      && (!halt ==> Walk(o, start, i + 1, sink, total, n404, delays, events, sink0, delays0, events0, []))
      && (halt ==> Walk(o, start, i + 1, sink, total, n404, delays, events, sink0, delays0, events0,
                        [Status(ThresholdMessage)]))
      && (halt <==> o.at(i).blob.None? && end.None? && n404 >= FailureThreshold(cfg, end))
      && (end.None? && !halt ==> BelowThreshold(o, start, i + 1, FailureThreshold(cfg, end)))
    }

    /** The body of the fetch loop for index `i`: the retry loop, then the
        failure count, the running total, and the progress or threshold
        signal. `halt` is the threshold `break`. */
    method Advance(ep: Endpoint, ghost o: Outcomes, start: nat, i: nat, end: Option<nat>, n404: nat, total: nat,
                   ghost sink0: seq<byte>, ghost delays0: seq<nat>, ghost events0: seq<Event>)
      returns (n404': nat, total': nat, halt: bool)
      requires start <= i && Follows(o, ep)
      requires Walk(o, start, i, sink, total, n404, delays, events, sink0, delays0, events0, [])
      requires end.None? ==> BelowThreshold(o, start, i, FailureThreshold(cfg, end))
      modifies this`events, this`delays, this`sink
      ensures Stepped(o, start, end, i, n404', total', halt, sink0, delays0, events0, sink, delays, events)
    {
      ghost var sink1, delays1, events1 := sink, delays, events;
      var ok, lastSize := FetchSegment(ep, i);
      assert o.at(i) == SegmentAt(ep, i);
      assert events == events1 + FailureEvents(o, i);
      halt := false;
      if !ok {
        n404', total' := n404 + 1, total;
        var threshold := if cfg.autoDetect && end.Some? && end.value != 0 then 3 else cfg.stopAfterN404;
        if end.None? && n404' >= threshold {
          Emit(Status(ThresholdMessage));
          halt := true;
        }
        if halt {
          WalkMissed(o, start, i, sink1, total, n404, delays1, events1, sink0, delays0, events0, [Status(ThresholdMessage)]);
        } else {
          WalkMissed(o, start, i, sink1, total, n404, delays1, events1, sink0, delays0, events0, []);
        }
      } else {
        n404', total' := 0, total + lastSize;
        Emit(Progress(i, lastSize));
        WalkWritten(o, start, i, sink1, total, n404, delays1, events1, sink0, delays0, events0);
      }
    }
}
}
