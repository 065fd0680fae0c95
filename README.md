# SynologyIndexer 2.0 — a Dafny model of the indexer core

SynologyIndexer scans a surveillance-camera directory tree for video files and
finds the motion in each new video. It records the results in an SQLite
database that a dashboard reads. This project models the four core parts of
that pipeline and proves what they guarantee:

- **Scanner** (`scanner.dfy`, `src/scanner.py`):
  - the extension and skip-pattern filter over the discovered paths;
  - `Path.suffix` and `Path.name` on path strings;
  - the identity hash: the first 16 hex digits of SHA-256 of the root-relative path;
  - the catalog loop, which leaves out every file whose `stat` raises.
- **Motion detector** (`detector.dfy`, `src/detector.py`):
  - the brightness-gated threshold profile;
  - the per-frame segment state machine (`analyze_video`): sampling every n-th frame, opening, extending and the grace-period close, with the end-of-stream flush;
  - `_finalize_segment`: the duration filter and the preview selection;
  - `_detect_objects`: the label post-processing;
  - `format_time`: `str(timedelta(seconds=int(t)))`.

  `AnalyzeVideo` is the imperative frame loop. It is proved equal to the function `Segments`, which composes:
  - `Sweep`, the state after n frames;
  - `Closings`, the segments handed to `_finalize_segment`;
  - `FinalizeAll`.
- **Result store** (`database.dfy`, `src/database.py`). The `videos` and `motion_segments` tables are two maps:
  - the hash maps to the video row;
  - (hash, index) maps to the segment row.

  The maps carry the schema's constraints: unique paths and the foreign key. `INSERT OR REPLACE` deletes every conflicting row and cascades to its segments. `DatabaseManager` is a class whose methods update the maps. Each method is proved against a function on the `Store` value.
- **Processor** (`processor.dfy`, `src/processor.py`). `run_scan` runs these steps in order:
  1. scan;
  2. clean up the rows of deleted files;
  3. pick the unprocessed videos in scan order;
  4. stop early when none are left;
  5. process the videos sequentially, or in pool batches of 50 that are saved in submission order;
  6. save each outcome (`_save_results`);
  7. read the statistics.

  The worker turns any exception into an error string.

`text.dfy` holds string helpers, and `wrappers.dfy` holds `Option` and `Result`.

The string helpers model Python's:
- `lower` on ASCII;
- `in` on strings;
- `rfind`;
- `split` and `join`;
- `int()` truncation;
- `str()` of integers;
- `str` ordering.

The label read-back at `src/viewer.py:294` splits on `,`, trims and drops empty fields. The trim is JavaScript's `String.prototype.trim`, which strips all of ECMAScript's whitespace and line terminators: tab, newline, no-break space and the Unicode space separators, not only the space.

The model treats these as parameters:
- the detector's pixel work: a `Capture` gives the per-frame contour areas, the leading frames' luma, the reported fps, which frames can be re-read, and the YOLO detector;
- the detector as seen by the processor: `analyze`, from a path to segments or an exception's text;
- time and clocks: `elapsed` and `now`;
- SHA-256: `sha`;
- the file system: `entries` and `stat`;
- `cpu_count()`: `cpus`.

The grace rule is the `>=` at `src/detector.py:121`. An open segment closes on the sampled sub-threshold frame that brings the quiet run to `end_grace_frames`. So with the default of 6, a gap of exactly six quiet samples splits a segment, and a limit of 7 bridges the same gap. `GraceSplitsOnExactGap` and `GraceBridgesShorterGap` show both cases on one input.

## Model

| member | source | states |
|---|---|---|
| Text.LowerChar | src/scanner.py:61 | ASCII upper-case letters map to lower case (code point + 32); every other character is unchanged |
| Text.Truncate | src/scanner.py:43 | `int(x)` truncates toward zero: for x ≥ 0 the result is the floor, for x < 0 the ceiling |
| Text.SplitJoin | src/detector.py:228 | splitting `sep.join(parts)` on the separator's first character gives the parts back, the first bare and each later part preceded by the rest of the separator, when no part holds that character |
| Text.NatStrValue | src/detector.py:236 | the decimal rendering of n reads back as n |
| Text.LessTotal | src/detector.py:228 | Python's `str` ordering is total: of two different strings one is smaller |
| Text.LessTransitive | src/detector.py:228 | Python's `str` ordering is transitive |
| Text.LessIrreflexive | src/detector.py:228 | no string is smaller than itself |
| Text.LessAsymmetric | src/detector.py:228 | if a < b then not b < a |
| Scanner.Name | src/scanner.py:61 | `Path.name` contains no '/' and is a suffix of the path |
| Scanner.Suffix | src/scanner.py:61 | `Path.suffix` is empty, or a '.' followed by at least one character and no further dot |
| Scanner.RelativeTo | src/scanner.py:74 | when `relative_to` succeeds, the path is the root, '/', and the relative part |
| Scanner.VideoPathsMembers | src/scanner.py:56-68 | a path is kept exactly when some discovered entry with that path is a file, has a listed extension after lower-casing, and contains no skip pattern |
| Scanner.VideoPathsInOrder | src/scanner.py:56-70 | the kept paths are an order-preserving subsequence of the discovered paths |
| Scanner.SuffixOfFileName | src/scanner.py:61 | a file "stem.ext" in any directory has suffix ".ext" |
| Scanner.UpperCaseExtension | src/scanner.py:61 | "stem.MP4" is accepted: the extension is compared after lower-casing |
| Scanner.LeadingDotIsNoSuffix | src/scanner.py:61 | a name whose only dot is its first character (".mp4") has no suffix and is never a video |
| Scanner.GenerateHash | src/scanner.py:72-75 | a computed identity hash has exactly 16 characters |
| Scanner.HashIgnoresRoot | src/scanner.py:72-75 | the same relative path under two different roots gets the same hash, and it is always computed |
| Scanner.StatFailureSkipped | src/scanner.py:36-47 | a path whose `stat` fails is left out and the scan continues: the catalog is the records before it followed by the records after it |
| Scanner.RecordsMembers | src/scanner.py:36-47 | a catalog record exists exactly for each filtered path whose `stat` succeeds, carrying its size, its truncated mtime and its identity hash |
| Scanner.RecordsAppend | src/scanner.py:36-47 | the records of two runs of paths are the records of each run, concatenated |
| Scanner.FindVideoFiles | src/scanner.py:52-70 | the loop returns exactly the filtered paths in discovery order |
| Scanner.ScanAllVideos | src/scanner.py:31-50 | the loop returns exactly the catalog: the records of the filtered paths, skipping failed stats |
| Database.UnprocessedSpec | src/database.py:91-97 | a hash is unprocessed exactly when it has a row without `processed_at`, so it is never one `is_processed` accepts |
| Database.MarkProcessedSpec | src/database.py:99-112 | after the upsert the hash's row is the new record and counts as processed; no other row has its path; none of the replaced rows' segments survive; non-conflicting rows and their segments are unchanged; the constraints still hold |
| Database.AddSegmentSpec | src/database.py:114-127 | the segment is stored under (hash, index), replacing an existing one with that key rather than adding a second; it fails on the foreign key exactly when the video has no row; videos and other segments are unchanged |
| Database.DeletedPathsCount | src/database.py:132-144 | with unique paths, the number of missing paths equals the number of rows deleted, and one is empty exactly when the other is |
| Database.CleanupSpec | src/database.py:129-146 | cleanup deletes exactly the rows whose path is missing, with their segments; the count is the number of rows removed; with nothing missing the store is unchanged; kept rows and segments are unchanged; the constraints hold |
| Database.PreviewSumRemove | src/database.py:186-188 | `SUM(preview_count)` does not depend on the order rows are visited: any row can be taken out first |
| Database.PreviewSumNonNegative | src/database.py:186-188 | the preview sum of rows with non-negative counts is non-negative |
| Database.StatisticsPreviews | src/database.py:186-188 | `total_previews` is 0 with no segments, and never negative while counts are lengths |
| Database.Restrict | src/database.py:186 | the restriction of the segment rows to some keys has exactly those keys that are stored, with the same rows |
| Database.DatabaseManager.constructor | src/database.py:17-20 | opening a database gives the tables the file holds, which satisfy the constraints |
| Database.DatabaseManager.IsProcessedQuery | src/database.py:82-89 | true exactly when the hash has a row with `processed_at` set |
| Database.DatabaseManager.GetUnprocessedHashes | src/database.py:91-97 | exactly the hashes whose row has no `processed_at`, none of them processed |
| Database.DatabaseManager.MarkProcessed | src/database.py:99-112 | the tables become the upsert of the new record (replacing rows with the same hash or path, cascading to their segments); the hash is then processed and the constraints hold |
| Database.DatabaseManager.AddMotionSegment | src/database.py:114-127 | succeeds exactly when the video has a row, and then stores the row under (hash, index); on failure nothing changes |
| Database.DatabaseManager.CleanupDeletedVideos | src/database.py:129-146 | the tables become the cleanup of the missing paths and the returned count is the number of paths missing, which equals the number of rows removed |
| Database.DatabaseManager.GetStatistics | src/database.py:168-188 | the processed count, the motion count, the segment count and the preview sum, whatever order the loop visits the segments in |
| Detector.BrightnessInRange | src/detector.py:146-159 | the brightness estimate over lumas in [0, 255] lies in [0, 255] |
| Detector.ScaleDark | src/detector.py:165 | `int(m * 1.5)` truncates toward zero, for negative m as well |
| Detector.DarkNotSmaller | src/detector.py:161-174 | for m ≥ 0 the dark profile's minimum area is at least the normal one and its binary threshold is lower |
| Detector.FallbackIsNormal | src/detector.py:159-174 | with no readable leading frame the brightness is 80, which gives the normal profile (m, 150) |
| Detector.FrameRate | src/detector.py:55 | the frame rate is positive and is the reported one unless that is 0, when it is 30 |
| Detector.OpenSegmentOk | src/detector.py:101-109 | a segment opened by an active frame starts there, at that frame's time, with that frame as its first preview and its area as peak |
| Detector.ExtendActive | src/detector.py:110-116 | another active frame keeps the peak the maximum of the active areas and adds the frame as a preview while fewer than five are recorded, in increasing order |
| Detector.ExtendQuiet | src/detector.py:118-120 | a sub-threshold or unsampled frame leaves the segment's start, peak and previews valid |
| Detector.SweepInvariant | src/detector.py:74-126 | the loop invariant: every closed segment is well formed, they are ordered without overlap, and an open segment is well formed and its grace counter equals the current run of quiet samples, which is below the limit |
| Detector.StepOk | src/detector.py:97-126 | one pass of the loop body (skip, open, extend, count a quiet sample, or close at the grace limit) takes a state satisfying the invariant after frame n − 1 to one satisfying it after frame n |
| Detector.ClosingsWellFormed | src/detector.py:74-132 | every segment handed to `_finalize_segment`, including the end-of-stream flush, starts on an active frame, has at most five increasing active previews starting with the first frame, records the peak of its active areas, and ends before the next one starts |
| Detector.GraceClose | src/detector.py:118-126 | an open segment closes on a frame exactly when that frame is sampled, below the threshold, and the quiet run reaches `end_grace_frames`; a close adds exactly one closing |
| Detector.ActiveResets | src/detector.py:100-116 | an active frame leaves a segment open with its grace counter at 0 |
| Detector.StepShape | src/detector.py:100-126 | one frame adds at most one closing: the segment that was open, ending at that frame |
| Detector.ActiveFramesCovered | src/detector.py:74-132 | no motion is dropped: every active sampled frame lies inside some segment handed to `_finalize_segment` |
| Detector.IdleStep | src/detector.py:100-118 | with no open segment, a sub-threshold frame changes nothing |
| Detector.OpenStep | src/detector.py:101-109 | with no open segment, an active frame opens one |
| Detector.ExtendStep | src/detector.py:110-116 | with an open segment, an active frame extends it |
| Detector.QuietStep | src/detector.py:118-126 | with an open segment, a sampled sub-threshold frame increments the grace counter and closes the segment at that frame once the counter reaches the limit |
| Detector.GraceSplitsOnExactGap | src/detector.py:119-126 | on areas [0,0,A,A,A,0×6,A,A] with `end_grace_frames` 6, two segments: frames 3–11 (ending at the closing sub-threshold frame) and 12–13 |
| Detector.GraceBridgesShorterGap | src/detector.py:119-126 | on the same areas with `end_grace_frames` 7, one segment from frame 3 to the end, with peak A |
| Detector.DarkProfileIgnoresThresholdArea | src/detector.py:97 | a frame whose area is exactly the configured minimum opens a segment under the normal profile and none under the dark one |
| Detector.FirstPreviews | src/detector.py:190 | `preview_frames[:5]` is the first min(n, 5) recorded frames, in order |
| Detector.ReadablePreviewsSpec | src/detector.py:190-196 | the saved previews are exactly the recorded frames that can be read back, in their order, and no more of them |
| Detector.FinalizeClosingGood | src/detector.py:176-212 | `_finalize_segment` returns None exactly when the duration is below the minimum; otherwise the segment has the closing's start and end times, its peak is the running maximum recorded while the segment was open, which is the largest area of an active frame within its span and is attained by one, its previews are the readable frames among the first five recorded, in order, and its labels are those of the first saved preview (empty when none was saved) |
| Detector.FinalizeAllGood | src/detector.py:123-132 | finalising ordered, well-formed closings yields good segments in time order, none ending after the last closing |
| Detector.SegmentsSpec | src/detector.py:74-132 | every segment `analyze_video` returns is the finalisation of one closed run of motion; it lasts at least `min_segment_duration`, its peak is the largest area of an active frame within its span (attained by one, and at least the area threshold), and it keeps at most five readable active previews inside it; the segments are in time order without overlap |
| Detector.FinalizeAllFrom | src/detector.py:118-132 | each segment kept by the finalisation loop is `_finalize_segment` applied to one of the closings |
| Detector.ClosingPeak | src/detector.py:100-112 | the peak tracked by `max(current_segment['max_area'], largest_area)` is the largest area of an active frame between the segment's start and end times, and one such frame attains it |
| Detector.ParamsFor | src/detector.py:55-72 | the parameters derived from the configuration have a positive frame rate |
| Detector.ConfidentLabelsMembers | src/detector.py:221-227 | a label is collected exactly when some box with that name has confidence above 0.5 |
| Detector.InsertSorted | src/detector.py:228 | inserting into a strictly increasing list keeps it strictly increasing and adds exactly that element |
| Detector.SortedSetSpec | src/detector.py:228 | `sorted(set(xs))` is strictly increasing and has exactly the elements of xs |
| Detector.IncreasingUnique | src/detector.py:228 | two strictly increasing lists with the same elements are equal, so `sorted(set(xs))` is determined by the elements |
| Detector.ParseLabels | src/viewer.py:294 | every label the dashboard reads back is non-empty, holds no ',' and has no `trim` whitespace at either end |
| Detector.TabEndedName | src/viewer.py:294 | a class name ending in a tab is not clean, and the dashboard reads it back without the tab |
| Text.Trim | src/viewer.py:294 | `trim` leaves an empty string or one with no ECMAScript whitespace at either end |
| Text.TrimChars | src/viewer.py:294 | `trim` only removes characters: every character left was in its input |
| Detector.ParseJoined | src/detector.py:228 | clean labels joined with ", " read back as the same list |
| Detector.LabelsRoundTrip | src/detector.py:221-228 | with clean class names, the stored label string reads back as exactly `sorted(set(labels))`: each label read back comes from a box above 0.5 confidence, and every such box's name is read back |
| Detector.IntStrRoundTrip | src/detector.py:236 | `str(d)` of any integer reads back as d and contains no space |
| Detector.ClockRoundTrip | src/detector.py:236 | the "H:MM:SS" of a time within a day has no space and reads back as that time |
| Detector.TimedeltaRoundTrip | src/detector.py:236 | `str(timedelta(seconds=n))`, with or without the "D day(s), " prefix, reads back as n |
| Detector.FormatTimeRoundTrip | src/detector.py:234-236 | `format_time(t)` reads back as `int(t)` |
| Detector.FinalizeSegment | src/detector.py:176-212 | the preview-saving loop returns exactly the finalised segment: None when too short, else the readable previews among the first five and the labels of the first |
| Detector.AnalyzeVideo | src/detector.py:44-144 | the frame loop returns exactly `Segments` for the derived parameters, or the "Cannot open video" error, or the modulo-by-zero error when `sample_every_n_frames` is 0 and a frame is read |
| Processor.ResultsAt | src/processor.py:77-86 | the i-th result is the worker's outcome for the i-th video |
| Processor.ResultsSlices | src/processor.py:77-82 | the results of consecutive batches concatenate to the results of all videos |
| Processor.RowsAt | src/processor.py:116-125 | segment row i holds both times as `H:MM:SS`, the duration end − start, the peak area, the labels and the number of previews of segment i |
| Processor.AddRowsSpec | src/processor.py:116-125 | storing n rows adds exactly the keys (hash, 1..n), holding the rows in order, and keeps every other row |
| Processor.SaveAllAppend | src/processor.py:84-86 | saving two runs of results one after the other equals saving them all in order |
| Processor.SaveResultVideos | src/processor.py:96-113 | after `_save_results` the video's row is the result's record and counts as processed; other rows kept are unchanged; only rows with that hash or path go; the constraints hold |
| Processor.SaveResultSegments | src/processor.py:96-125 | a failed analysis leaves no segment of the video; otherwise its segments are exactly indexes 1..n holding the n rows in order, whatever an earlier run stored; other videos' segments are kept or dropped, never altered |
| Processor.WorkerOutcome | src/processor.py:96-150 | an exception with text becomes a processed row with duration 0, no motion, that error and no segments; an empty exception text is stored without error; a success records the elapsed time, has motion exactly when segments were found, and stores segments 1..n |
| Processor.ToProcessSpec | src/processor.py:42-43 | a video is to be processed exactly when it was scanned and its hash is not processed, and scan order is kept |
| Processor.NothingToProcess | src/processor.py:49-51 | when every scanned video is processed there is nothing to process |
| Processor.VideosToProcess | src/processor.py:43 | the comprehension's loop returns exactly the videos to process |
| Processor.CleanupKeepsAgreement | src/processor.py:38-39 | cleanup with the scanned paths leaves only scanned paths, stored under their own hashes, with the constraints intact |
| Processor.SaveAllKeeps | src/processor.py:96-113 | saving results of scanned videos keeps the constraints and the path/hash agreement, keeps processed videos processed and processes each saved one |
| Processor.TodoSaved | src/processor.py:42-61 | saving the results of the videos to process leaves every scanned video processed |
| Processor.RunScanProcessesCatalog | src/processor.py:26-61 | after a scan every scanned video is processed under its own path, every row belongs to a scanned video, and nothing is left to process |
| Processor.RunScanIdempotent | src/processor.py:35-51 | a second scan of the same files changes nothing, whatever the detector would now report |
| Processor.ProgressUpToAt | src/processor.py:88 | the k-th progress count is `min((k + 1) * 50, n)` |
| Processor.BatchCountOf | src/processor.py:77 | `range(0, n, 50)` yields the number of offsets that first reach n |
| Processor.ProgressSpec | src/processor.py:77-88 | the progress counts are empty exactly for no videos; each is in 1..n; they rise by at most 50; the first is at most 50 and the last is n |
| Processor.MotionProcessor.constructor | src/processor.py:19-24 | a processor over the given root, a fresh store holding the database's contents, and the configured worker count |
| Processor.MotionProcessor.SaveResults | src/processor.py:96-125 | the store becomes `SaveResult`: the record upsert, then segments 1..n added one by one for a successful result |
| Processor.MotionProcessor.ProcessSequential | src/processor.py:90-94 | the results are the workers' outcomes in order, and the store is all of them saved in order |
| Processor.MotionProcessor.ProcessedHashes | src/processor.py:42 | a scanned video's hash is collected exactly when the store reports it processed |
| Processor.MotionProcessor.SaveBatch | src/processor.py:85-86 | a batch's results are saved in order after the earlier ones |
| Processor.MotionProcessor.ProcessParallel | src/processor.py:73-88 | batches of 50 give the same results and the same store as the sequential run, and the reported progress counts are `min(i + 50, n)` for each offset |
| Processor.MotionProcessor.RunScan | src/processor.py:26-71 | the store becomes cleanup with the scanned paths followed by saving every unprocessed video's outcome in scan order; there are no statistics exactly when nothing was processed, else they are the store's statistics |

## Left out

- `src/viewer.py`: the Flask routes, the HTML/JS, preview-file lookup, the rebuild thread and the auto-scan loop are not part of this model. Only the label read-back at line 294 (split on ',', JavaScript `trim`, drop empty fields) is modelled, as `ParseLabels`, to phrase the label round trip.
- OpenCV pixel work is not modelled: decoding, resizing, MOG2 background subtraction, the binary threshold, contours and the luma mean. The `Capture` gives the results: the largest contour area of each frame under the chosen profile, and the luma of the leading frames.
- `background_var_threshold` (and its `* 0.7` dark value): it only tunes MOG2, which is not modelled.
- YOLO model loading and inference: `Capture.yolo` is either absent or a function from a frame to its boxes, or to None when inference raises.
- Preview images: writing the JPEGs and their file names is left out. Whether a frame can be read back is `Capture.readable`. Re-reading the first saved preview for YOLO is assumed to succeed, as the first read did.
- Read position after `_finalize_segment`: the source seeks the capture to the preview frames and then carries on reading from there. The model has the loop read the next frame of the stream.
- `analyze_video`'s metadata (brightness factor, thresholds, total frames, fps) is left out. Only the processor's logging reads it.
- Floating point: frame times `frame_idx / fps` and durations are exact reals. The peak contour area is a real, stored as given in the INTEGER column.
- Detector.Analysis: the configuration values are taken as numbers of the right type. `config.get` returning other types is not modelled.
- Detector.Analysis, Detector.ParamsFor and Detector.AnalyzeVideo: only a non-negative reported frame rate is modelled. A negative `CAP_PROP_FPS` survives `or 30`, makes every time and duration negative, and the source then returns no segments; the model requires `reportedFps >= 0.0` instead of modelling that path.
- Text.LowerChar: only ASCII letters are lower-cased, where Python's `str.lower` covers all of Unicode.
- `multiprocessing.Pool` scheduling and process start-up are not modelled. `starmap` returns results in submission order, so a batch is the sequence of its workers' outcomes.
- Clocks: `time.time()` durations are the parameter `elapsed`.
- Processor.MotionProcessor.RunScan: one `now` stands for every `processed_at` of a run, where the source takes a fresh `utcnow()` per `mark_processed`.
- Processor.RunScanProcessesCatalog and Processor.RunScanIdempotent: these assume that within one scan two different paths never share a 16-digit hash (`HashesMatchPaths`), and that stored rows under scanned paths were written by a scan of the same root (`Agrees`). A truncated SHA-256 collision is not modelled.
- Logging: every `logger` call and the printed statistics are left out. The `skipped` count at `src/processor.py:45-47` only feeds a log line.
- Database.DatabaseManager.CleanupDeletedVideos and Database.Cleanup: the single `DELETE ... WHERE video_path IN (?,...)` at src/database.py:139-143 is assumed to succeed. With more deleted paths than SQLite's host-parameter limit (999 before SQLite 3.32, 32766 from 3.32 on), `sqlite3` raises `OperationalError` ("too many SQL variables"), the transaction rolls back, and the exception leaves `run_scan` at src/processor.py:39 before any video is processed. The model has no bound on the number of deleted paths.
- SQLite plumbing is not modelled: connections, transactions, rollback, index creation, the `id` and `created_at` columns, and the `CURRENT_TIMESTAMP` default.
- `get_all_motion_events`: only the dashboard uses it, and its order is by `created_at`, which is not modelled.
- `avg_processing_time`: floating-point averaging and rounding are not modelled, so `Statistics` has only the three counts and the preview sum.
- `Database.DatabaseManager.constructor`: schema creation is not modelled. The database's existing contents are a parameter that satisfies the schema's constraints.
- SHA-256 internals: `sha` is an uninterpreted function to 64 hex digits.
- File-system walking: `rglob`, `is_file` and `stat` are I/O. The walk is given as `entries` (path string and is-file flag), and `stat` is a function that returns None when it raises.
- Scanner.RelativeTo: `relative_to` is modelled on path strings, where the root is a string prefix ending before a '/'. Path normalisation is not modelled.
- Detector.FormatTimeRoundTrip: the reader of `H:MM:SS` / "D day(s), H:MM:SS" strings is this model's own `ParseTimedelta`. The source never parses them back.
