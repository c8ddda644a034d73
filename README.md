# Segment downloader — a Dafny model

This project models the core of a desktop tool that downloads a video
published as numbered MPEG-TS segments (`segment_0001.jpg`,
`segment_0002.jpg`, …) and joins them into one file. The model covers:

- **The download worker** (`workers.py`, `DownloadWorker`):
  - URL normalisation and the existence probe;
  - automatic detection of the first index and the last index (a
    bracketing search, then a binary search);
  - the fetch loop, with its per-segment retry loop, the MPEG-TS sync-byte
    check and the "n misses in a row" stop rule;
  - the stop flag set by `stop()`;
  - the endings of `run`: cancelled, nothing written, stream copy
    succeeded, ffmpeg missing, ffmpeg failed.
- **The header parser** (`utils.py`, `parse_headers_text`): the key
  pattern, the blocked names and the value clean-up.
- **The standalone script** (`Videofragment.py`): `download_segment` and
  `main`.
- **Three pieces of the interface** (`ui.py`): the file-name sanitiser, the
  automatic output names, and the parsing of the "range detected" status
  message into the row's range.

## Modules

- `Text`: `str.strip`, `split`, `replace`, `zfill` and `int()`, and `os.path.splitext` and `os.path.join`, on strings.
- `Config`: `JobConfig` and its defaults.
- `Segments`: `_normalize_url`, the segment URLs, the network as an oracle, and `_probe_segment`.
- `RangeDetect`: `_find_start` and `_find_end` as pure searches, with their correctness proofs.
- `Fetch`: the retry loop for one index, as a function of the network's answers.
- `Assembly`: what the scratch TS file holds after a walk over a range of indices.
- `WorkerSpec`: the worker's messages, output names and thresholds, and the specification of the fetch loop's state.
- `Worker`: class `DownloadWorker`. The stop flag, the emitted signals, the pauses and the scratch file are its fields, and `run` is a set of its methods.
- `Headers`: `parse_headers_text`.
- `Legacy`: `Videofragment.py`.
- `Ui`: `_sanitize_filename`, `_generate_auto_filename`, and the range branch of `_on_status` (class `App`).

### How the model stands in for the outside world

- **Network.** A `Network` value answers HEAD requests, the probe's
  fallback GET, and the download GET of a URL at a given attempt number.
- **Stop request.** A `stop()` request from the interface thread is the
  read of `_stop` from which on it is visible (`cancelAt`).
- **Page-URL resolver.** It is a function from the page URL to a folder
  URL or a failure.
- **ffmpeg.** It is the `Remux` outcome.
- **Unique id and working directory.** Both are parameters.

### Fuel

Loops that the source bounds only by the network's answers carry a `fuel`
bound on the number of indices they walk. These are the fetch loop of
`run` and the `while True` loop of `main`. A run that exhausts the fuel is
reported as unfinished.

## Model

| member | source | states |
|---|---|---|
| `Segments.NormalizeUrl` | workers.py:79-81 | the result ends with '/', equals the input when the input already does, and extends the input by at most one character |
| `Segments.NormalizeIdempotent` | workers.py:79-81 | normalising twice is normalising once |
| `Segments.SegmentUrl` | workers.py:229-230 | `base + zfill(i, pad) + ".jpg"`; `SegmentUrlRoundTrip` and `SegmentUrlInjective` state that the index is recoverable and distinct indices give distinct URLs |
| `Segments.IndexOfUrl` | workers.py:93 | an index is read back only from a URL with the folder as prefix and ".jpg" as suffix |
| `Segments.SegmentUrlRoundTrip` | workers.py:93 | the index can be read back from `base + zfill(i, pad) + ".jpg"` |
| `Segments.SegmentUrlInjective` | workers.py:229-230 | distinct indices give distinct segment URLs |
| `Segments.Probe` | workers.py:91-105 | a segment exists exactly when HEAD answers 200, or HEAD answers 405 and the fallback GET answers 200; every exception means "absent" |
| `Text.ZFill` | workers.py:229 | all digits, value equal to the index, length max(width, digit count), the plain digits at the end |
| `Text.ZFillInjective` | workers.py:229 | zero-padded numbers of distinct indices differ |
| `Text.NatToStringRoundTrip` | workers.py:229 | the digits of `str(n)` have the value `n` |
| `Text.ParseIntRoundTrip` | ui.py:266-267 | `int(str(i)) == i` for every integer |
| `Text.SplitExt` | workers.py:202-205 | the two parts concatenate to the path; the extension is empty or one dot followed by no dot and no separator |
| `RangeDetect.StartSearch` | workers.py:111-120 | the start is 0 or 1, and it is 0 exactly when segment 0 exists |
| `RangeDetect.NextStep` | workers.py:137 | the step doubles, never beyond 1000 |
| `RangeDetect.Bracket` | workers.py:127-137 | the bracketing loop as a function of the existence test, giving the final probe and the probes made; `BracketShape` states its properties |
| `RangeDetect.BracketShape` | workers.py:127-137 | the bracketing probes begin at the start, stay below 100000, and all but the last found a segment; consecutive probes are 100 to 1000 apart |
| `RangeDetect.Bisect` | workers.py:139-153 | the binary search with the upper midpoint, giving `low` and the probes made; `BisectBounds`, `BisectFindsLast` and `BisectProbeCount` state its properties |
| `RangeDetect.BisectBounds` | workers.py:139-153 | the binary search returns a value in `[low, max(low, high)]` that is `low` or an existing segment, and probes only `(low, high]` |
| `RangeDetect.BisectFindsLast` | workers.py:139-153 | for segments that exist exactly up to `k`, the binary search returns `max(low, min(k, high))` |
| `RangeDetect.BisectProbeCount` | workers.py:139-153 | the binary search makes at most about log2(high - low) probes |
| `RangeDetect.EndSearch` | workers.py:122-153 | `_find_end` without the stop flag: the bracketing, then the binary search up to `min(probe, 100000)`; `EndSearchBounds`, `EndSearchFindsLast` and `EndSearchBisectProbes` state its properties |
| `RangeDetect.EndSearchBounds` | workers.py:122-153 | the detected end lies in `[start, max(start, 100000)]`, and is the start or an existing segment |
| `RangeDetect.EndSearchFindsLast` | workers.py:122-153 | for segments that exist exactly from `start` up to `k`, the detected end is `min(k, 100000)` |
| `RangeDetect.EndSearchBisectProbes` | workers.py:122-153 | the probes of the end search are those of the bracketing plus at most log2(100000) |
| `Fetch.Classify` | workers.py:238-245 | a 404 is absent, a non-empty body starting with 0x47 is written as is, a body without the sync byte is the "Bad segment" error |
| `Fetch.Retry` | workers.py:234-256 | the retry loop for one URL from a given attempt: blob, GETs made, pauses and reported failure; `RetryShape`, `CorruptNeverWritten` and `FirstAttemptWritten` state its properties |
| `Fetch.SegmentAt` | workers.py:228-256 | the retry loop for index `i` of an endpoint, from attempt 1; `Worker.DownloadWorker.FetchSegment` is proved to append exactly its blob |
| `Fetch.RetryShape` | workers.py:234-256 | at most `retry` GETs; every GET before the last one failed with an error; a blob is the TS body of the last GET; pauses of 1, 2, … seconds between attempts; a failure is the last GET's error and is reported only after every attempt; a 404 ends the attempts at once |
| `Fetch.CorruptNeverWritten` | workers.py:243-245 | a segment that only ever answers non-TS bodies is never written and is reported with the "Bad segment" message |
| `Fetch.FirstAttemptWritten` | workers.py:236-251 | a TS body on the first attempt is written after one GET and no pause |
| `Assembly.Written` | workers.py:224-269 | the chunks written by a walk over `[lo, hi)`; `WrittenInOrder`, `WrittenStep` and `NothingFoundNothingWritten` state its properties |
| `Assembly.Flatten` | workers.py:247 | the scratch file as the concatenation of the chunks; `FlattenSize`, `FlattenAppend` and `ChunkPlacement` state its properties |
| `Assembly.Misses` | workers.py:258-266 | the consecutive-miss count after a walk; `StopAfterTrailingMisses` and `MissesAndCount` state its properties |
| `Assembly.WrittenInOrder` | workers.py:224-269 | the chunks written come from `[lo, hi)`, each is the body its index yielded, in increasing index order, and every index with a body has a chunk |
| `Assembly.ChunkPlacement` | workers.py:247 | chunk `k` sits in the file right after the chunks before it |
| `Assembly.WrittenStep` | workers.py:247-249 | walking one more index appends exactly its body, and the running total grows by its size |
| `Assembly.FlattenSize` | workers.py:247-249 | `total_written` equals the size of the file |
| `Assembly.StopAfterTrailingMisses` | workers.py:258-264 | when the segments end at `m`, the miss count first reaches `t` at `m + t`, with exactly the segments before `m` written |
| `Assembly.MissesAndCount` | workers.py:258-266 | the miss count and the number of chunks at every index of such a walk |
| `Assembly.NothingFoundNothingWritten` | workers.py:278-281 | when no index yields a body, nothing is written and the total is 0 |
| `Config.NewJob` | models.py:9-22 | the dataclass defaults: start 1, pad 4, no end, 10 misses, 5 attempts, timeout 30, no headers, auto-detect on |
| `WorkerSpec.FailureThreshold` | workers.py:261 | when the end is unknown, the threshold is the configured `stop_after_n_404` |
| `WorkerSpec.OutputExtension` | workers.py:203-205 | the extension of the output name is never empty and always begins with a dot, so a name without one gets ".mp4" |
| `WorkerSpec.OutputPaths` | workers.py:202-209 | the scratch path ends in `_<uid>.ts`, and the final path is the same stem with the output extension |
| `WorkerSpec.PathsShareStem` | workers.py:208-209 | the scratch file and the final file, joined to the same folder, differ only in their extension |
| `WorkerSpec.ProgressMatchesWritten` | workers.py:246-267 | the progress signals of a walk are exactly (index, size) of the chunks written, in order |
| `WorkerSpec.LoopStep` | workers.py:224-269 | one more index adds its signals, its pauses, and resets or increments the miss count |
| `WorkerSpec.WalkWritten` | workers.py:246-267 | a segment that yields a body extends the walk: its bytes appended, the total grown, the miss count reset, a progress signal |
| `WorkerSpec.WalkMissed` | workers.py:258-264 | a segment that yields nothing extends the walk with the miss count one higher and the file unchanged |
| `WorkerSpec.BelowThresholdMeans` | workers.py:258-265 | before the walk ends, every run of misses stays below the threshold |
| `WorkerSpec.DownloadEventsSilent` | workers.py:220-269 | the download phase emits no `done` signal |
| `WorkerSpec.LoopEventsSilent` | workers.py:224-269 | the fetch loop emits no `done` signal |
| `WorkerSpec.EndingCloses` | workers.py:271-297 | every ending emits exactly one `done`, last; it is a success only for an uncancelled, non-empty download with a working stream copy, and it then names the final file |
| `WorkerSpec.ScratchKeptOnlyOnRemuxFailure` | workers.py:271-297 | the scratch file survives only when ffmpeg is missing or failed, and the `done` is then a failure |
| `Worker.DownloadWorker.constructor` | workers.py:69-73 | a fresh worker: flag clear, nothing emitted, nothing written, no scratch file |
| `Worker.DownloadWorker.Stop` | workers.py:75-77 | sets the flag |
| `Worker.DownloadWorker.PollStop` | workers.py:224 | one read of the flag, which sees a stop request from its read on |
| `Worker.DownloadWorker.CleanupScratch` | workers.py:83-89 | removes the scratch file when there is one, else changes nothing |
| `Worker.DownloadWorker.FindStart` | workers.py:107-120 | equals `StartSearch` unless a read of the flag sees the stop, then 1; one read per candidate; the "found" message only for an existing start |
| `Worker.DownloadWorker.FindEnd` | workers.py:122-153 | equals `EndSearch`'s end with one flag read per probe, or `None` exactly when a read saw the stop |
| `Worker.DownloadWorker.BracketEnd` | workers.py:127-137 | the bracketing loop follows `Bracket` probe by probe, with one flag read per probe |
| `Worker.DownloadWorker.BisectEnd` | workers.py:139-153 | the binary-search loop follows `Bisect` probe by probe, with one flag read per probe |
| `Worker.DownloadWorker.Detect` | workers.py:182-199 | a detected range is the start search and the end search of the pure model, and its signals end with the range message; it is cancelled exactly when a read of the flag saw the stop, and then closes with the cancelled failure; an empty range closes with the "no segments" failure |
| `Worker.DownloadWorker.Range` | workers.py:178-199 | the configured range without detection, the detected range otherwise, which lies in `[start, 100000]` |
| `Worker.DownloadWorker.FetchSegment` | workers.py:228-256 | appends exactly the blob `SegmentAt` yields, takes its pauses and reports its failure |
| `Worker.DownloadWorker.TryOnce` | workers.py:234-256 | one attempt continues the retry function: a pause and another attempt, or the final blob, size and failure report |
| `Worker.DownloadWorker.FetchLoop` | workers.py:224-269 | the scratch file, total, miss count, pauses and signals equal the walk over `[start, next)`; it ends on the flag, past a known end, or after `threshold` misses in a row with an unknown end, and no earlier run of misses was that long |
| `Worker.DownloadWorker.CheckTurn` | workers.py:224-227 | the loop's head checks: the flag first, then the known end |
| `Worker.DownloadWorker.Advance` | workers.py:258-269 | after one index: miss count reset or incremented, total grown by the blob, progress or threshold signal |
| `Worker.DownloadWorker.WriteScratch` | workers.py:211-269 | a fresh scratch file, the start signal, then the fetch loop writing into it |
| `Worker.DownloadWorker.Finish` | workers.py:271-297 | a flag read, then the cancelled, empty and three stream-copy endings, removing the scratch file as the source does |
| `Worker.DownloadWorker.Transfer` | workers.py:201-297 | the download writes the walk's bytes and ends with `Finish`'s signals; with a known end and enough fuel it always finishes |
| `Worker.DownloadWorker.Download` | workers.py:201-297 | a finished download ends with exactly one `done`, with the guarantees of `Concluded` |
| `Worker.DownloadWorker.ConcludedAtOnce` | workers.py:168-170 | a run that fails before writing anything has concluded |
| `Worker.DownloadWorker.RunFolder` | workers.py:172-297 | `run` from the segment folder on: the file holds the walk from the first index, the run concludes, a detected download stays within the detected range, and with detection and fuel above 100000 it always finishes |
| `Worker.DownloadWorker.Locate` | workers.py:160-170 | a resolver failure yields no folder and the single "URL 추출 실패" failure; a resolved folder is used with no `done` signal |
| `Worker.DownloadWorker.Run` | workers.py:155-297 | every finished run ends with exactly one `done`; success only with the final path after a non-empty, uncancelled download and a working stream copy; a resolver failure writes nothing |
| `Headers.BlockedIgnoresCase` | utils.py:56 | keys that differ only in letter case are blocked alike |
| `Headers.SanitizeValueAsWritten` | utils.py:61-63 | the value clean-up as the code reads: the result is Latin-1 |
| `Headers.AsWrittenOnlyFilters` | utils.py:61-63 | on a short value without an ellipsis, only the Latin-1 filter acts |
| `Headers.CurlyQuotesDroppedAsWritten` | utils.py:61-63 | as written, curly quotes are dropped; the intended clean-up turns them into '"' |
| `Headers.CurlyLineAsWritten` | utils.py:43-65 | a header line whose value is in curly quotes is parsed with the quotes removed |
| `Headers.SanitizeValue` | utils.py:59-63 | the clean-up the code intends always yields Latin-1 text |
| `Headers.SanitizeKeepsLatin1` | utils.py:59-63 | the intended clean-up leaves Latin-1 text unchanged |
| `Headers.SanitizeCurly` | utils.py:61-62 | the intended clean-up turns `“x”` into `"x"` |
| `Headers.SanitizeIdempotent` | utils.py:59-63 | cleaning up twice is cleaning up once |
| `Headers.SplitLines` | utils.py:36 | `str.splitlines()`: no piece contains a line boundary |
| `Headers.ParseParts` | utils.py:47-65 | the three key checks in order and the value clean-up as written; an entry always has an allowed, unblocked key and a Latin-1 value |
| `Headers.KeyPart` | utils.py:37-44 | the stripped key before the first ':' of the stripped line, absent for a blank line or one without ':'; the key never contains ':' |
| `Headers.BadLine` | utils.py:47-57 | a line with a key that is empty, fails the pattern, or is blocked in any letter case |
| `Headers.RejectMessage` | utils.py:47-57 | the message of the first failing key check |
| `Headers.ParseLineCases` | utils.py:37-65 | a line is skipped exactly when it has no key, rejected exactly when its key is bad, with the message of the first failing check, and otherwise an entry for its key |
| `Headers.ParseLine` | utils.py:37-65 | an entry has a key matching the pattern, not blocked, and a Latin-1 value; `ParseLineCases` states when a line is skipped, rejected or an entry |
| `Headers.ParseLineSplitsAtFirstColon` | utils.py:43-45 | `k: v` gives key `k` and the cleaned `v`, which keeps any further ':' |
| `Headers.Collect` | utils.py:35-67 | the dict filled line by line, stopping at the first rejected line; `CollectError` and `CollectLastWins` state its properties |
| `Headers.ParseHeaders` | utils.py:24-67 | `parse_headers_text` as a function of the text; `ParseHeadersRejects` and `ParseHeadersValid` state its properties |
| `Headers.ClassifyRejects` | utils.py:36-57 | the numbered lines are rejected exactly where a line is bad, each with its own line's message |
| `Headers.ParseHeadersRejects` | utils.py:35-65 | for a non-blank text, the result is an error exactly when some line has an empty, malformed or blocked key, and the error is the message of the first such line, numbered from 1 |
| `Headers.ParseHeadersValid` | utils.py:24-65 | every parsed header, and every default, has an allowed, unblocked key and a Latin-1 value |
| `Headers.DefaultHeadersValid` | utils.py:24-33 | every default header has an allowed, unblocked key and a Latin-1 value |
| `Headers.CollectError` | utils.py:47-57 | the result is an error exactly when some line is rejected, and it is the message of the first rejected line |
| `Headers.CollectLastWins` | utils.py:65 | a key is in the result exactly when some line sets it, and the last such line's value wins |
| `Headers.LastEntryMeans` | utils.py:65 | the last entry for a key is the value of a line that sets it, with no later line setting it |
| `Headers.ParseHeadersText` | utils.py:16-67 | equals `ParseHeaders`: the defaults for a blank text, otherwise the line-by-line result, an error exactly for a bad key (`ParseHeadersRejects`); every header of an `Ok` result is valid |
| `Legacy.DefaultsFirstUrl` | Videofragment.py:22-29 | documents the shipped settings: the first GET is for `segment_0001.jpg` |
| `Legacy.Attempts` | Videofragment.py:48-66 | the retry loop of `download_segment` from a given attempt; `AttemptsShape`, `AgreesWithWorker` and `KeepsNonTsBody` state its properties |
| `Legacy.AttemptsShape` | Videofragment.py:48-66 | at most `RETRY` GETs, pauses of 1, 2, … seconds, every GET but the last an error; a body is returned as is; the error is re-raised only from the last attempt; a 404 gives `None` at once |
| `Legacy.AgreesWithWorker` | Videofragment.py:48-66 | where no body lacks the sync byte, the script and the worker make the same GETs and pauses and agree on blob and failure |
| `Legacy.KeepsNonTsBody` | Videofragment.py:56-59 | the script returns a body without the sync byte, which the worker would reject |
| `Legacy.DownloadSegment` | Videofragment.py:48-66 | the retry loop yields exactly what `Attempts` describes |
| `Legacy.FetchAll` | Videofragment.py:79-108 | the file holds the bodies of `[START, next)` in order; it stops past `END`, at the first raising download, or after `STOP_AFTER_N_404` misses in a row when `END` is unknown |
| `Legacy.Settle` | Videofragment.py:86-108 | after one download: a raised download ends the walk at that index, the limit-th miss in a row with `END` unknown ends it after, otherwise the walk is extended by the body or by one more miss |
| `Legacy.RunScript` | Videofragment.py:69-132 | exit code 0 exactly when the walk ended normally, wrote something and ffmpeg succeeded, 1 otherwise; no exit code when the fuel runs out |
| `Legacy.WalkedGot` | Videofragment.py:99-108 | a downloaded body extends the walk: appended, total grown, miss count reset |
| `Legacy.WalkedMiss` | Videofragment.py:93-98 | a missing segment below the limit extends the walk with the miss count one higher |
| `Legacy.EndsOnCrash` | Videofragment.py:86-91 | a download that raises ends `main` at that index with its reason |
| `Legacy.EndsOnThreshold` | Videofragment.py:93-98 | with `END` unknown, the `STOP_AFTER_N_404`-th miss in a row ends the walk |
| `Ui.SanitizeFilename` | ui.py:182-196 | `_sanitize_filename`; `SanitizeSafe`, `SanitizeClean`, `SanitizeIdempotent`, `SanitizeBlank` and `SanitizeLoneDot` state its properties |
| `Ui.CollapseDots` | ui.py:187 | `re.sub(r'\.\.+', '_', …)`: the result is empty exactly for an empty name, has no run of two dots, keeps its first and last characters or turns them into '_', and adds no separator; `CollapseIdentity` states that a name without a run of dots is unchanged |
| `Ui.MapForbidden` | ui.py:189 | every character Windows refuses becomes '_' and every other character is kept |
| `Ui.ReplaceSepsPointwise` | ui.py:186 | every separator becomes '_' and every other character is kept |
| `Ui.CollapseIdentity` | ui.py:187 | a name without a run of dots is left as it is |
| `Ui.SanitizeSafe` | ui.py:182-196 | the result has no separator and no character Windows refuses, is not "..", and has a non-empty stem |
| `Ui.SanitizeClean` | ui.py:182-196 | apart from the lone "." case, the result is clean and has an extension |
| `Ui.SanitizeIdempotent` | ui.py:182-196 | apart from the lone "." case, sanitising twice is sanitising once |
| `Ui.SanitizeBlank` | ui.py:184 | a blank name gives "output.mp4" |
| `Ui.SanitizeLoneDot` | ui.py:192-196 | a name that cleans to "." gives "..mp4", which has no extension |
| `Ui.LoneDotName` | ui.py:184-189 | "." cleans to "." |
| `Ui.AutoName` | ui.py:209 | `output` + 4-digit counter + `.mp4`; `AutoNameInjective` and `AutoNameFixed` state its properties |
| `Ui.AutoNameInjective` | ui.py:206-209 | distinct counter values give distinct names |
| `Ui.AutoNameFixed` | ui.py:182-209 | the sanitiser leaves every automatic name unchanged |
| `Ui.RangeFields` | ui.py:259-263 | the two halves of a message split at ':', '(' and '~', when it has that shape; `DetectedLineFields` states it on the worker's message |
| `Ui.ApplyRange` | ui.py:264-267 | the row's entry is created if absent; its start and end are set in the order the code sets them; other rows are untouched |
| `Ui.StatusInfo` | ui.py:257-269 | only the row can change; a message without the marker, or with another shape, changes nothing |
| `Ui.StatusInfoFields` | ui.py:257-267 | a message of the right shape updates the row with `int()` of its two stripped halves |
| `Ui.DetectedLineFields` | ui.py:259-263 | the marker line splits into its two range halves |
| `Ui.RangeRoundTrip` | ui.py:257-267 | the worker's range message sets the row's range to exactly (start, end) |
| `Ui.App.constructor` | ui.py:143-146 | counter 0, no statuses, no ranges |
| `Ui.App.GenerateAutoFilename` | ui.py:206-209 | the counter goes up by one and the name is `output` + 4-digit counter + `.mp4` |
| `Ui.App.OnStatus` | ui.py:250-269 | the status text is stored and marked for an existing row, and the ranges become `StatusInfo` of the message |

## Left out

- Worker.DownloadWorker.FetchLoop: the loop walks at most `fuel` indices. A run that uses up the fuel is unfinished; the source has no such bound. The same bound is passed through `Transfer`, `Download`, `RunFolder` and `Run`.
- Legacy.FetchAll: the `while True` loop of `main` walks at most `fuel` indices, and `Legacy.RunScript` returns no exit code when the fuel runs out.
- Worker.DownloadWorker.Run: the outer `except Exception` of `run` (workers.py:299-302) is not modelled. It removes the scratch file and emits `done(False, "오류: …")` when `os.remove` or `open` fails (workers.py:211-223), or when `subprocess.run` raises an `OSError` other than `FileNotFoundError`. The model assumes that file operations succeed and that ffmpeg ends in one of the three `Remux` outcomes.
- Worker.DownloadWorker.Locate: the resolver's own status messages (workers.py:20-35, sent through the callback at workers.py:165) are not among the signals. The resolver (browser automation) is a function from the page URL to its answer.
- Worker.DownloadWorker.TryOnce: a failing `merged.write` inside the retry `try` (workers.py:236-252) would be retried like a network error. The model's scratch file never fails to grow.
- Segments.Probe: the request headers and the timeouts (10 s for the probe, `cfg.timeout` for downloads) are not inputs of the `Network` oracle. They affect only what the server answers, which the oracle already leaves free.
- Text.Join: only POSIX `os.path` rules ('/' as separator, an absolute second part replaces the first); Windows drive letters and '\\' are not modelled. The same holds for `Text.SplitExt` and for `os.sep` in `Ui.SanitizeFilename`.
- Ui.SanitizeFilename: a `None` name, like a `None` `out_name`, `save_dir` or header text, is modelled as the empty string; the source treats both alike through `or`.
- Ui.App.OnStatus: `int()` is modelled on ASCII only. Python also accepts single underscores between digits (`"1_0"` is 10) and non-ASCII decimal digits, so for such a message the source sets a start or end that the model leaves unset. A partial update after the first `int()` succeeds and the second fails follows the code.
- Ui.App.constructor: `_segment_info` is created later, when a job starts (ui.py:408, ui.py:505). The model starts with an empty map.
- Worker.DownloadWorker.Finish: the ffmpeg stream copy is the `Remux` outcome; the command line and its output are not modelled.
- Legacy.RunScript: the progress bar, the printed messages and the deletion of an old `merged.ts` are not modelled. The settings block (Videofragment.py:20-34) is a `Settings` parameter, with the shipped values as `Legacy.Defaults`. `time.sleep(1.0 * attempt)` is modelled as whole seconds.
- Worker.DownloadWorker.FetchSegment: `time.sleep(1.0 * attempt)` is modelled as whole seconds, appended to `delays`.
- Threads, Qt signals and timers are not modelled. Signals are appended to a list in emission order. A `stop()` from another thread becomes visible at a chosen read of the flag.
- The `PornhubDownloadWorker`, the resolver's browser automation, and the interface's widgets and progress labels are not part of this model.
- Dictionary order is not modelled; headers and ranges are maps.
- Worker.DownloadWorker.Detect: the `end < start` half of the "no segments" test can never hold (the detected end is at least the start); it is modelled as written.

## Findings

| source | as written | input that shows it | evidently intended | confidence | as-written member | corrected member |
|---|---|---|---|---|---|---|
| utils.py:61-62 | In the second `replace` of line 61, the quotes around the curly quote close the string early. The literal Python sees is `, """).replace(`, and line 62 replaces the ASCII apostrophe by itself. Curly quotes therefore reach the Latin-1 filter on line 63 and are dropped. | the header line `A: “x”` gives the value `x` | `“ ”` become `"` and `‘ ’` become `'` before the Latin-1 filter, so the value is `"x"` | not executed | `Headers.CurlyQuotesDroppedAsWritten` | `Headers.SanitizeValue` |
