/**
  The scan driver, `MotionProcessor`: discover the videos under the root,
  drop the rows of videos that are gone, analyse every video not yet
  processed (one after another, or in batches of 50 on a worker pool) and
  write each outcome to the store.

  The detector is a parameter `analyze` from a path to the video's motion
  segments or the text of the exception it raised; the time the worker
  measured is a parameter `elapsed`; `now` stands for the `processed_at`
  timestamp. The pool's `starmap` returns its results in the order of its
  arguments, so a batch is modelled as the sequence of its workers' results.
 */
module Processor {
  import opened Wrappers
  import opened Text
  import Detector
  import Scanner
  import opened Database

  type VideoFile = Scanner.VideoFile
  type MotionSegment = Detector.MotionSegment

  /** How many videos one pool run handles before its results are saved. */
  const BatchSize: nat := 50

  /** The worker count used when the configuration names none: `min(cpu_count(), 4)`. */
  const DefaultWorkerCap := 4

  /**
    The tuple `process_video_worker` returns: the video, its segments, the
    `processing_duration` entry of its metadata (absent when the analysis
    raised, since the metadata is then `{}`) and the error text.
   */
  datatype WorkerResult = WorkerResult(
    video: VideoFile,
    segments: seq<MotionSegment>,
    duration: Option<real>,
    error: Option<string>)

  /** `process_video_worker`: the detector's segments and the elapsed time, or no segments and the exception's text. */
  function ProcessVideoWorker(analyze: string -> Result<seq<MotionSegment>, string>, elapsed: string -> real,
                              v: VideoFile): WorkerResult
  {
    match analyze(v.path)
    case Success(segs) => WorkerResult(v, segs, Some(elapsed(v.path)), None)
    case Failure(e) => WorkerResult(v, [], None, Some(e))
  }

  /** The workers of a run, in the order of the videos. */
  function Results(analyze: string -> Result<seq<MotionSegment>, string>, elapsed: string -> real,
                   vs: seq<VideoFile>): (rs: seq<WorkerResult>)
    ensures |rs| == |vs|
    decreases |vs|
  {
    if vs == [] then []
    else Results(analyze, elapsed, vs[..|vs| - 1]) + [ProcessVideoWorker(analyze, elapsed, vs[|vs| - 1])]
  }

  /** The i-th result is the worker's outcome for the i-th video, and belongs to that video. */
  lemma {:induction false} ResultsAt(analyze: string -> Result<seq<MotionSegment>, string>, elapsed: string -> real,
                                     vs: seq<VideoFile>)
    ensures forall i :: 0 <= i < |vs| ==> Results(analyze, elapsed, vs)[i] == ProcessVideoWorker(analyze, elapsed, vs[i])
    ensures forall i :: 0 <= i < |vs| ==> Results(analyze, elapsed, vs)[i].video == vs[i]
    decreases |vs|
  {
    if vs != [] {
      var init := vs[..|vs| - 1];
      ResultsAt(analyze, elapsed, init);
      assert forall i :: 0 <= i < |init| ==> init[i] == vs[i];
    }
  }

  // ---------------------------------------------------------------------------
  // Saving one result

  /** `if error:` — an error text counts only when it is not empty. */
  predicate Failed(r: WorkerResult) {
    r.error.Some? && r.error.value != ""
  }

  /** The `videos` row `_save_results` writes for a result. */
  function ResultRecord(r: WorkerResult, now: string): VideoRecord {
    var v := r.video;
    if Failed(r) then
      VideoRecord(v.path, v.size, v.modified, Some(now), Some(0.0), false, r.error)
    else
      var duration := if r.duration.Some? then r.duration.value else 0.0;
      VideoRecord(v.path, v.size, v.modified, Some(now), Some(duration), |r.segments| > 0, None)
  }

  /** The `motion_segments` row written for a segment. */
  function Row(s: MotionSegment): SegmentRow {
    SegmentRow(Detector.FormatTime(s.startTime), Detector.FormatTime(s.endTime),
               s.endTime - s.startTime, s.maxMotionArea, s.detectedObjects, |s.previewFrames|)
  }

  /** The rows of a video's segments, in order. */
  function Rows(segs: seq<MotionSegment>): (rows: seq<SegmentRow>)
    ensures |rows| == |segs|
  {
    seq(|segs|, i requires 0 <= i < |segs| => Row(segs[i]))
  }

  /**
    Row i of a video is built from its segment i: both times formatted as
    `H:MM:SS`, the duration their difference, and one preview count per
    preview frame.
   */
  lemma RowsAt(segs: seq<MotionSegment>, i: nat)
    requires i < |segs|
    ensures var row := Rows(segs)[i];
      && row.startTime == Detector.FormatTime(segs[i].startTime)
      && row.endTime == Detector.FormatTime(segs[i].endTime)
      && row.durationSec == segs[i].endTime - segs[i].startTime
      && row.maxMotionArea == segs[i].maxMotionArea
      && row.detectedObjects == segs[i].detectedObjects
      && row.previewCount == |segs[i].previewFrames|
  {
  }

  /** Rows stored one by one under indexes 1, 2, … of a video that has a row. */
  function AddRows(st: Store, h: string, rows: seq<SegmentRow>): (after: Store)
    requires h in st.videos
    ensures after.videos == st.videos
    decreases |rows|
  {
    if rows == [] then st
    else
      var before := AddRows(st, h, rows[..|rows| - 1]);
      AddSegment(before, SegmentKey(h, |rows|), rows[|rows| - 1]).value
  }

  /** `_save_results`: the store afterwards. */
  function SaveResult(st: Store, r: WorkerResult, now: string): Store {
    var marked := UpsertVideo(st, r.video.hash, ResultRecord(r, now));
    if Failed(r) then marked else AddRows(marked, r.video.hash, Rows(r.segments))
  }

  /** The results saved in order. */
  function SaveAll(st: Store, rs: seq<WorkerResult>, now: string): Store
    decreases |rs|
  {
    if rs == [] then st
    else SaveResult(SaveAll(st, rs[..|rs| - 1], now), rs[|rs| - 1], now)
  }

  /** Saving one more result. */
  lemma SaveAllStep(st: Store, rs: seq<WorkerResult>, r: WorkerResult, now: string)
    ensures SaveAll(st, rs + [r], now) == SaveResult(SaveAll(st, rs, now), r, now)
  {
    assert (rs + [r])[..|rs|] == rs;
  }

  /** Saving two runs of results, one after the other. */
  lemma {:induction false} SaveAllAppend(st: Store, xs: seq<WorkerResult>, ys: seq<WorkerResult>, now: string)
    ensures SaveAll(st, xs + ys, now) == SaveAll(SaveAll(st, xs, now), ys, now)
    decreases |ys|
  {
    if ys == [] {
      assert xs + ys == xs;
    } else {
      var init := ys[..|ys| - 1];
      SaveAllAppend(st, xs, init, now);
      assert (xs + ys)[..|xs + ys| - 1] == xs + init;
      assert (xs + ys)[|xs + ys| - 1] == ys[|ys| - 1];
    }
  }

  /** The workers of two runs of videos, one after the other. */
  lemma {:induction false} ResultsAppend(analyze: string -> Result<seq<MotionSegment>, string>, elapsed: string -> real,
                                         xs: seq<VideoFile>, ys: seq<VideoFile>)
    ensures Results(analyze, elapsed, xs + ys) == Results(analyze, elapsed, xs) + Results(analyze, elapsed, ys)
    decreases |ys|
  {
    if ys == [] {
      assert xs + ys == xs;
    } else {
      var init := ys[..|ys| - 1];
      ResultsAppend(analyze, elapsed, xs, init);
      assert (xs + ys)[..|xs + ys| - 1] == xs + init;
      assert (xs + ys)[|xs + ys| - 1] == ys[|ys| - 1];
    }
  }

  /** The results up to `i` and those from `i` to `end` make the results up to `end`. */
  lemma ResultsSlices(analyze: string -> Result<seq<MotionSegment>, string>, elapsed: string -> real,
                      vs: seq<VideoFile>, i: nat, end: nat)
    requires i <= end <= |vs|
    ensures Results(analyze, elapsed, vs[..i]) + Results(analyze, elapsed, vs[i..end]) == Results(analyze, elapsed, vs[..end])
  {
    assert vs[..end] == vs[..i] + vs[i..end];
    ResultsAppend(analyze, elapsed, vs[..i], vs[i..end]);
  }

  /** Storing the first `idx` rows is storing the first `idx - 1` and then row `idx`. */
  lemma AddRowsStep(st: Store, h: string, rows: seq<SegmentRow>, idx: nat)
    requires h in st.videos && 1 <= idx <= |rows|
    ensures AddRows(st, h, rows[..idx]) == AddSegment(AddRows(st, h, rows[..idx - 1]), SegmentKey(h, idx), rows[idx - 1]).value
  {
    assert rows[..idx][..idx - 1] == rows[..idx - 1];
  }

  /** Storing n rows adds exactly the keys 1..n of the video, holding the rows in order, and keeps every other row. */
  lemma {:induction false} AddRowsSpec(st: Store, h: string, rows: seq<SegmentRow>)
    requires st.Valid() && h in st.videos
    ensures var after := AddRows(st, h, rows);
      && after.Valid()
      && (forall k :: k in after.segments <==> k in st.segments || (k.videoHash == h && 1 <= k.index <= |rows|))
      && (forall i :: 1 <= i <= |rows| ==> after.segments[SegmentKey(h, i)] == rows[i - 1])
      && (forall k :: k in st.segments && !(k.videoHash == h && 1 <= k.index <= |rows|) ==>
            after.segments[k] == st.segments[k])
    decreases |rows|
  {
    if rows != [] {
      var init := rows[..|rows| - 1];
      AddRowsSpec(st, h, init);
      var before := AddRows(st, h, init);
      var key := SegmentKey(h, |rows|);
      AddSegmentSpec(before, key, rows[|rows| - 1]);
      var after := AddRows(st, h, rows);
      assert after.segments.Keys == before.segments.Keys + {key};
      forall k
        ensures k in after.segments <==> k in st.segments || (k.videoHash == h && 1 <= k.index <= |rows|)
      {
        if k != key {
          assert k in after.segments <==> k in before.segments;
        }
      }
      forall i | 1 <= i < |rows|
        ensures after.segments[SegmentKey(h, i)] == rows[i - 1]
      {
        assert init[i - 1] == rows[i - 1];
      }
    }
  }

  /**
    `_save_results(result)` leaves the video's row equal to `ResultRecord`,
    so the video counts as processed; every other row it keeps is
    unchanged, it removes no row whose hash and path both differ, and the
    schema's constraints still hold.
   */
  lemma SaveResultVideos(st: Store, r: WorkerResult, now: string)
    requires st.Valid()
    ensures var h, after := r.video.hash, SaveResult(st, r, now);
      && after.Valid()
      && h in after.videos && after.videos[h] == ResultRecord(r, now)
      && IsProcessed(after, h)
      && (forall k :: k in after.videos && k != h ==> k in st.videos && after.videos[k] == st.videos[k])
      && (forall k :: k in st.videos && k != h && st.videos[k].path != r.video.path ==> k in after.videos)
  {
    var h := r.video.hash;
    var rec := ResultRecord(r, now);
    MarkProcessedSpec(st, h, rec);
    if !Failed(r) {
      AddRowsSpec(UpsertVideo(st, h, rec), h, Rows(r.segments));
    }
  }

  /**
    After `_save_results(result)` a failed analysis leaves no segment of
    the video; otherwise its segments are exactly indexes 1..n holding the
    rows of the n segments in order, whatever segments an earlier run
    stored for it (the upsert's cascade removes those first). The segments
    of other videos are kept or, with a replaced row, dropped, never altered.
   */
  lemma SaveResultSegments(st: Store, r: WorkerResult, now: string)
    requires st.Valid()
    ensures var h, after := r.video.hash, SaveResult(st, r, now);
      && (Failed(r) ==> forall k :: k in after.segments ==> k.videoHash != h)
      && (!Failed(r) ==> forall k :: k in after.segments && k.videoHash == h <==>
            k.videoHash == h && 1 <= k.index <= |r.segments|)
      && (!Failed(r) ==> forall i :: 1 <= i <= |r.segments| ==>
            after.segments[SegmentKey(h, i)] == Rows(r.segments)[i - 1])
      && (forall k :: k in after.segments && k.videoHash != h ==> k in st.segments && after.segments[k] == st.segments[k])
  {
    var h := r.video.hash;
    var rec := ResultRecord(r, now);
    var marked := UpsertVideo(st, h, rec);
    var rows := Rows(r.segments);
    var after := SaveResult(st, r, now);
    assert marked.Valid() && h in marked.videos
      && forall k :: k in marked.segments ==> k.videoHash != h && k in st.segments && marked.segments[k] == st.segments[k]
    by {
      MarkProcessedSpec(st, h, rec);
    }
    if Failed(r) {
      assert after == marked;
    } else {
      assert after == AddRows(marked, h, rows);
      AddRowsSpec(marked, h, rows);
    }
    SavedSegments(st, marked, after, h, Failed(r), rows);
  }

  /**
    The segments after saving one outcome for `h`, given the store with `h`'s
    old segments removed (`marked`): none for a failure, otherwise exactly
    the new rows; every other video's segments as before.
   */
  lemma SavedSegments(st: Store, marked: Store, after: Store, h: string, failed: bool, rows: seq<SegmentRow>)
    requires forall k :: k in marked.segments ==> k.videoHash != h && k in st.segments && marked.segments[k] == st.segments[k]
    requires failed ==> after == marked
    requires !failed ==> forall k :: k in after.segments <==> k in marked.segments || (k.videoHash == h && 1 <= k.index <= |rows|)
    requires !failed ==> forall i :: 1 <= i <= |rows| ==> SegmentKey(h, i) in after.segments && after.segments[SegmentKey(h, i)] == rows[i - 1]
    requires !failed ==> forall k :: k in marked.segments ==> k in after.segments && after.segments[k] == marked.segments[k]
    ensures failed ==> forall k :: k in after.segments ==> k.videoHash != h
    ensures !failed ==> forall k :: k in after.segments && k.videoHash == h <==> k.videoHash == h && 1 <= k.index <= |rows|
    ensures !failed ==> forall i :: 1 <= i <= |rows| ==> after.segments[SegmentKey(h, i)] == rows[i - 1]
    ensures forall k :: k in after.segments && k.videoHash != h ==> k in st.segments && after.segments[k] == st.segments[k]
  {
  }

  /**
    What a worker's outcome becomes in the store: a detector exception with
    a message is an error row (duration 0, no motion, no segments); a
    successful analysis records the elapsed time and has motion exactly
    when it found segments, which are stored one row each; an exception
    whose text is empty slips past `if error:` and is stored as a run
    without motion and without an error.
   */
  lemma WorkerOutcome(st: Store, analyze: string -> Result<seq<MotionSegment>, string>, elapsed: string -> real,
                      v: VideoFile, now: string)
    requires st.Valid()
    ensures var after := SaveResult(st, ProcessVideoWorker(analyze, elapsed, v), now);
      && v.hash in after.videos
      && var rec := after.videos[v.hash];
      && rec.path == v.path && rec.fileSize == v.size && rec.lastModified == v.modified && rec.processedAt == Some(now)
      && (analyze(v.path).Failure? && analyze(v.path).error != "" ==>
            && rec.processingDuration == Some(0.0) && !rec.hasMotion
            && rec.errorMessage == Some(analyze(v.path).error)
            && forall k :: k in after.segments ==> k.videoHash != v.hash)
      && (analyze(v.path).Failure? && analyze(v.path).error == "" ==>
            && rec.processingDuration == Some(0.0) && !rec.hasMotion && rec.errorMessage.None?
            && forall k :: k in after.segments ==> k.videoHash != v.hash)
      && (analyze(v.path).Success? ==>
            && rec.processingDuration == Some(elapsed(v.path))
            && rec.errorMessage.None?
            && (rec.hasMotion <==> analyze(v.path).value != [])
            && (forall k :: k in after.segments && k.videoHash == v.hash <==>
                  k.videoHash == v.hash && 1 <= k.index <= |analyze(v.path).value|))
  {
    var r := ProcessVideoWorker(analyze, elapsed, v);
    SaveResultVideos(st, r, now);
    SaveResultSegments(st, r, now);
  }

  // ---------------------------------------------------------------------------
  // Choosing what to process

  /** `existing_paths`: the paths of the scanned videos. */
  function CatalogPaths(catalog: seq<VideoFile>): set<string> {
    set v | v in catalog :: v.path
  }

  /** `videos_to_process`: the scanned videos whose hash is not processed, in scan order. */
  function ToProcess(st: Store, catalog: seq<VideoFile>): seq<VideoFile>
    decreases |catalog|
  {
    if catalog == [] then []
    else
      var init := ToProcess(st, catalog[..|catalog| - 1]);
      var v := catalog[|catalog| - 1];
      if IsProcessed(st, v.hash) then init else init + [v]
  }

  /** A video is processed exactly when it was scanned and its hash is not processed; the scan order is kept. */
  lemma {:induction false} ToProcessSpec(st: Store, catalog: seq<VideoFile>)
    ensures forall v :: v in ToProcess(st, catalog) <==> v in catalog && !IsProcessed(st, v.hash)
    ensures Subsequence(ToProcess(st, catalog), catalog)
    decreases |catalog|
  {
    if catalog == [] {
      SubsequenceEmpty(catalog);
    } else {
      var init := catalog[..|catalog| - 1];
      var last := catalog[|catalog| - 1];
      ToProcessSpec(st, init);
      assert catalog == init + [last];
      var todo := ToProcess(st, init);
      SubsequenceExtend(todo, init, last);
      if !IsProcessed(st, last.hash) {
        var todo' := todo + [last];
        assert todo'[..|todo'| - 1] == todo;
      }
    }
  }

  /** When every scanned video is processed there is nothing to process. */
  lemma {:induction false} NothingToProcess(st: Store, catalog: seq<VideoFile>)
    requires forall v :: v in catalog ==> IsProcessed(st, v.hash)
    ensures ToProcess(st, catalog) == []
    decreases |catalog|
  {
    if catalog != [] {
      var init := catalog[..|catalog| - 1];
      assert forall v :: v in init ==> v in catalog;
      NothingToProcess(st, init);
      assert catalog[|catalog| - 1] in catalog;
    }
  }

  /** `videos_to_process`: the scanned videos whose hash is not among the processed ones, in scan order. */
  method VideosToProcess(ghost st: Store, videos: seq<VideoFile>, processedHashes: set<string>)
    returns (todo: seq<VideoFile>)
    requires forall k :: 0 <= k < |videos| ==> (videos[k].hash in processedHashes <==> IsProcessed(st, videos[k].hash))
    ensures todo == ToProcess(st, videos)
  {
    todo := [];
    for j := 0 to |videos|
      invariant todo == ToProcess(st, videos[..j])
    {
      assert videos[..j + 1][..j] == videos[..j];
      if videos[j].hash !in processedHashes {
        todo := todo + [videos[j]];
      }
    }
    assert videos[..|videos|] == videos;
  }

  // ---------------------------------------------------------------------------
  // A whole scan

  /** `run_scan`'s effect on the store: cleanup with the scanned paths, then every unprocessed video saved in scan order. */
  function RunScanSpec(st: Store, catalog: seq<VideoFile>, analyze: string -> Result<seq<MotionSegment>, string>,
                       elapsed: string -> real, now: string): Store
  {
    var cleaned := Cleanup(st, CatalogPaths(catalog));
    var todo := ToProcess(cleaned, catalog);
    if todo == [] then cleaned else SaveAll(cleaned, Results(analyze, elapsed, todo), now)
  }

  /**
    Within one scan the hash identifies the path: equal paths give equal
    hashes (the hash is computed from the path), and the 16 hex digits of
    two scanned paths do not collide.
   */
  ghost predicate HashesMatchPaths(catalog: seq<VideoFile>) {
    forall v, w :: v in catalog && w in catalog ==> (v.hash == w.hash <==> v.path == w.path)
  }

  /** A stored row whose path was scanned is stored under that video's hash, as a scan of the same root wrote it. */
  ghost predicate Agrees(st: Store, catalog: seq<VideoFile>) {
    forall k, v :: k in st.videos && v in catalog && st.videos[k].path == v.path ==> k == v.hash
  }

  /** Every stored path was scanned. */
  ghost predicate OnlyScanned(st: Store, catalog: seq<VideoFile>) {
    forall k :: k in st.videos ==> st.videos[k].path in CatalogPaths(catalog)
  }

  /** Saving one scanned video's result keeps the agreement, keeps processed videos processed and processes that video. */
  lemma SaveOneKeeps(st: Store, catalog: seq<VideoFile>, r: WorkerResult, now: string)
    requires st.Valid() && HashesMatchPaths(catalog) && Agrees(st, catalog) && OnlyScanned(st, catalog)
    requires r.video in catalog
    ensures var after := SaveResult(st, r, now);
      && after.Valid() && Agrees(after, catalog) && OnlyScanned(after, catalog)
      && (forall w :: w in catalog && IsProcessed(st, w.hash) ==> IsProcessed(after, w.hash))
      && IsProcessed(after, r.video.hash)
  {
    var after := SaveResult(st, r, now);
    SaveResultVideos(st, r, now);
    var v := r.video;
    forall w | w in catalog && IsProcessed(st, w.hash)
      ensures IsProcessed(after, w.hash)
    {
      if w.hash != v.hash {
        assert st.videos[w.hash].path != v.path;
      }
    }
  }

  /** The videos processed before the last result stay processed after it, and the last one is processed by it. */
  lemma ProcessedAfterStep(mid: Store, after: Store, catalog: seq<VideoFile>, rs: seq<WorkerResult>)
    requires |rs| > 0
    requires forall i :: 0 <= i < |rs| ==> rs[i].video in catalog
    requires forall i :: 0 <= i < |rs| - 1 ==> IsProcessed(mid, rs[i].video.hash)
    requires forall w :: w in catalog && IsProcessed(mid, w.hash) ==> IsProcessed(after, w.hash)
    requires IsProcessed(after, rs[|rs| - 1].video.hash)
    ensures forall i :: 0 <= i < |rs| ==> IsProcessed(after, rs[i].video.hash)
  {
    forall i | 0 <= i < |rs| - 1
      ensures IsProcessed(after, rs[i].video.hash)
    {
      assert rs[i].video in catalog && IsProcessed(mid, rs[i].video.hash);
    }
  }

  /** Saving the results of scanned videos keeps the agreement, keeps processed videos processed and processes each saved one. */
  lemma {:induction false} SaveAllKeeps(st: Store, catalog: seq<VideoFile>, rs: seq<WorkerResult>, now: string)
    requires st.Valid() && HashesMatchPaths(catalog) && Agrees(st, catalog) && OnlyScanned(st, catalog)
    requires forall i :: 0 <= i < |rs| ==> rs[i].video in catalog
    ensures var after := SaveAll(st, rs, now);
      && after.Valid() && Agrees(after, catalog) && OnlyScanned(after, catalog)
      && (forall w :: w in catalog && IsProcessed(st, w.hash) ==> IsProcessed(after, w.hash))
      && (forall i :: 0 <= i < |rs| ==> IsProcessed(after, rs[i].video.hash))
    decreases |rs|
  {
    if rs != [] {
      var init := rs[..|rs| - 1];
      var r := rs[|rs| - 1];
      var mid := SaveAll(st, init, now);
      var after := SaveAll(st, rs, now);
      assert after == SaveResult(mid, r, now);
      assert mid.Valid() && Agrees(mid, catalog) && OnlyScanned(mid, catalog)
        && (forall w :: w in catalog && IsProcessed(st, w.hash) ==> IsProcessed(mid, w.hash))
        && (forall i :: 0 <= i < |init| ==> IsProcessed(mid, rs[i].video.hash))
      by {
        assert forall i :: 0 <= i < |init| ==> init[i] == rs[i];
        SaveAllKeeps(st, catalog, init, now);
      }
      assert after.Valid() && Agrees(after, catalog) && OnlyScanned(after, catalog)
        && (forall w :: w in catalog && IsProcessed(mid, w.hash) ==> IsProcessed(after, w.hash))
        && IsProcessed(after, r.video.hash)
      by {
        SaveOneKeeps(mid, catalog, r, now);
      }
      ProcessedAfterStep(mid, after, catalog, rs);
    }
  }

  /**
    After a scan every scanned video is processed, under its own path; every
    row left belongs to a scanned video; and there is nothing left to
    process, so a second scan of the same files processes nothing.
   */
  lemma RunScanProcessesCatalog(st: Store, catalog: seq<VideoFile>, analyze: string -> Result<seq<MotionSegment>, string>,
                                elapsed: string -> real, now: string)
    requires st.Valid() && HashesMatchPaths(catalog) && Agrees(st, catalog)
    ensures var after := RunScanSpec(st, catalog, analyze, elapsed, now);
      && after.Valid()
      && (forall v :: v in catalog ==> IsProcessed(after, v.hash) && after.videos[v.hash].path == v.path)
      && (forall k :: k in after.videos ==> exists v :: v in catalog && v.hash == k)
      && ToProcess(after, catalog) == []
  {
    var cleaned := Cleanup(st, CatalogPaths(catalog));
    CleanupKeepsAgreement(st, catalog);
    var todo := ToProcess(cleaned, catalog);
    var after := RunScanSpec(st, catalog, analyze, elapsed, now);
    if todo == [] {
      assert after == cleaned;
      ToProcessSpec(cleaned, catalog);
    } else {
      var rs := Results(analyze, elapsed, todo);
      assert after == SaveAll(cleaned, rs, now);
      TodoSaved(cleaned, catalog, rs, now, analyze, elapsed);
    }
    ScannedRows(after, catalog);
  }

  /** Cleanup with the scanned paths keeps the agreement and leaves only scanned paths. */
  lemma CleanupKeepsAgreement(st: Store, catalog: seq<VideoFile>)
    requires st.Valid() && Agrees(st, catalog)
    ensures var cleaned := Cleanup(st, CatalogPaths(catalog));
      cleaned.Valid() && Agrees(cleaned, catalog) && OnlyScanned(cleaned, catalog)
  {
    CleanupSpec(st, CatalogPaths(catalog));
  }

  /** Saving the workers' results of the videos to process leaves every scanned video processed. */
  lemma TodoSaved(cleaned: Store, catalog: seq<VideoFile>, rs: seq<WorkerResult>, now: string,
                  analyze: string -> Result<seq<MotionSegment>, string>, elapsed: string -> real)
    requires cleaned.Valid() && HashesMatchPaths(catalog) && Agrees(cleaned, catalog) && OnlyScanned(cleaned, catalog)
    requires rs == Results(analyze, elapsed, ToProcess(cleaned, catalog))
    ensures var after := SaveAll(cleaned, rs, now);
      && after.Valid() && Agrees(after, catalog) && OnlyScanned(after, catalog)
      && forall v :: v in catalog ==> IsProcessed(after, v.hash)
  {
    var todo := ToProcess(cleaned, catalog);
    ResultsAt(analyze, elapsed, todo);
    ToProcessSpec(cleaned, catalog);
    TodoScanned(cleaned, catalog, todo, rs);
    SaveAllKeeps(cleaned, catalog, rs, now);
    EveryScannedProcessed(cleaned, SaveAll(cleaned, rs, now), catalog, todo, rs);
  }

  /** The videos to process are scanned videos, so every result is about a scanned video. */
  lemma TodoScanned(cleaned: Store, catalog: seq<VideoFile>, todo: seq<VideoFile>, rs: seq<WorkerResult>)
    requires |rs| == |todo| && forall i :: 0 <= i < |rs| ==> rs[i].video == todo[i]
    requires forall v :: v in todo <==> v in catalog && !IsProcessed(cleaned, v.hash)
    ensures forall i :: 0 <= i < |rs| ==> rs[i].video in catalog
  {
    forall i | 0 <= i < |rs|
      ensures rs[i].video in catalog
    {
      assert todo[i] in todo;
    }
  }

  /** Videos processed before stay processed and every video to process was saved, so every scanned video is processed. */
  lemma EveryScannedProcessed(cleaned: Store, after: Store, catalog: seq<VideoFile>, todo: seq<VideoFile>, rs: seq<WorkerResult>)
    requires |rs| == |todo| && forall i :: 0 <= i < |rs| ==> rs[i].video == todo[i]
    requires forall v :: v in catalog && !IsProcessed(cleaned, v.hash) ==> v in todo
    requires forall w :: w in catalog && IsProcessed(cleaned, w.hash) ==> IsProcessed(after, w.hash)
    requires forall i :: 0 <= i < |rs| ==> IsProcessed(after, rs[i].video.hash)
    ensures forall v :: v in catalog ==> IsProcessed(after, v.hash)
  {
    forall v | v in catalog && !IsProcessed(cleaned, v.hash)
      ensures IsProcessed(after, v.hash)
    {
      var i :| 0 <= i < |todo| && todo[i] == v;
      assert rs[i].video == v;
    }
  }

  /** Once every scanned video is processed, each row is a scanned video's, under its own path, and nothing is left to process. */
  lemma ScannedRows(after: Store, catalog: seq<VideoFile>)
    requires HashesMatchPaths(catalog) && Agrees(after, catalog) && OnlyScanned(after, catalog)
    requires forall v :: v in catalog ==> IsProcessed(after, v.hash)
    ensures forall v :: v in catalog ==> v.hash in after.videos && after.videos[v.hash].path == v.path
    ensures forall k :: k in after.videos ==> exists v :: v in catalog && v.hash == k
    ensures ToProcess(after, catalog) == []
  {
    forall v | v in catalog
      ensures after.videos[v.hash].path == v.path
    {
      var w :| w in catalog && after.videos[v.hash].path == w.path;
    }
    forall k | k in after.videos
      ensures exists v :: v in catalog && v.hash == k
    {
      var w :| w in catalog && after.videos[k].path == w.path;
    }
    NothingToProcess(after, catalog);
  }

  /** Scanning the same files again changes nothing, whatever the detector would now say. */
  lemma RunScanIdempotent(st: Store, catalog: seq<VideoFile>, analyze: string -> Result<seq<MotionSegment>, string>,
                          elapsed: string -> real, now: string,
                          analyze': string -> Result<seq<MotionSegment>, string>, elapsed': string -> real, now': string)
    requires st.Valid() && HashesMatchPaths(catalog) && Agrees(st, catalog)
    ensures var after := RunScanSpec(st, catalog, analyze, elapsed, now);
      RunScanSpec(after, catalog, analyze', elapsed', now') == after
  {
    var after := RunScanSpec(st, catalog, analyze, elapsed, now);
    RunScanProcessesCatalog(st, catalog, analyze, elapsed, now);
    var paths := CatalogPaths(catalog);
    forall k | k in after.videos
      ensures after.videos[k].path in paths
    {
      var v :| v in catalog && v.hash == k;
    }
    assert DeletedPaths(after, paths) == {};
  }

  // ---------------------------------------------------------------------------
  // Progress of the batched run

  function Min(a: int, b: int): int {
    if a <= b then a else b
  }

  /** How many batches `range(0, n, 50)` yields. */
  function BatchCount(n: nat): nat {
    (n + BatchSize - 1) / BatchSize
  }

  /** The first `c` counts `min(i + 50, n)` the batched run reports over `n` videos. */
  function ProgressUpTo(c: nat, n: nat): (p: seq<int>)
    ensures |p| == c
    decreases c
  {
    if c == 0 then [] else ProgressUpTo(c - 1, n) + [Min(c * BatchSize, n)]
  }

  /** The `Progress: m/n` counts of a batched run over `n` videos. */
  function ProgressReports(n: nat): seq<int> {
    ProgressUpTo(BatchCount(n), n)
  }

  lemma {:induction false} ProgressUpToAt(c: nat, n: nat)
    ensures forall k :: 0 <= k < c ==> ProgressUpTo(c, n)[k] == Min((k + 1) * BatchSize, n)
    decreases c
  {
    if c > 0 {
      ProgressUpToAt(c - 1, n);
    }
  }

  lemma ProgressNext(c: nat, n: nat)
    ensures ProgressUpTo(c + 1, n) == ProgressUpTo(c, n) + [Min(c * BatchSize + BatchSize, n)]
  {
  }

  /** The batch offsets 0, 50, … stop at the first multiple of 50 that reaches `n`. */
  lemma BatchCountOf(c: nat, n: nat)
    requires n <= c * BatchSize < n + BatchSize
    ensures c == BatchCount(n)
  {
  }

  /**
    The reported counts rise by at most one batch at a time, never pass the
    number of videos, and the last one is that number.
   */
  lemma ProgressSpec(n: nat)
    ensures var p := ProgressReports(n);
      && (n == 0 <==> p == [])
      && (forall k :: 0 <= k < |p| ==> 0 < p[k] <= n)
      && (forall k :: 0 < k < |p| ==> p[k - 1] < p[k] <= p[k - 1] + BatchSize)
      && (p != [] ==> p[0] <= BatchSize && p[|p| - 1] == n)
  {
    var p := ProgressReports(n);
    var c := BatchCount(n);
    ProgressUpToAt(c, n);
    assert c * BatchSize <= n + BatchSize - 1 < c * BatchSize + BatchSize;
    forall k | 0 < k < |p|
      ensures p[k - 1] < p[k]
    {
      assert k * BatchSize < n;
    }
  }

  /** One more batch extends the results by that batch's results and the reports by its count. */
  lemma BatchStep(analyze: string -> Result<seq<MotionSegment>, string>, elapsed: string -> real,
                  videos: seq<VideoFile>, i: nat, results: seq<WorkerResult>, progress: seq<int>)
    requires i == |progress| * BatchSize < |videos|
    requires results == Results(analyze, elapsed, videos[..i])
    requires progress == ProgressUpTo(|progress|, |videos|)
    ensures var end := Min(i + BatchSize, |videos|);
      && results + Results(analyze, elapsed, videos[i..end]) == Results(analyze, elapsed, videos[..end])
      && progress + [end] == ProgressUpTo(|progress| + 1, |videos|)
  {
    ResultsSlices(analyze, elapsed, videos, i, Min(i + BatchSize, |videos|));
    ProgressNext(|progress|, |videos|);
  }

  lemma PrefixStep<T>(s: seq<T>, j: nat)
    requires j < |s|
    ensures s[..j + 1] == s[..j] + [s[j]]
  {
  }

  // ---------------------------------------------------------------------------
  // The processor object

  /** `MotionProcessor`: the root it scans, the store it writes and the configured worker count. */
  class MotionProcessor {
    const root: string
    const db: DatabaseManager
    const parallelWorkers: Option<int>

    constructor (root: string, contents: Store, parallelWorkers: Option<int>)
      requires contents.Valid()
      ensures this.root == root && this.parallelWorkers == parallelWorkers
      ensures fresh(db) && db.Valid() && db.State() == contents
    {
      this.root := root;
      this.parallelWorkers := parallelWorkers;
      db := new DatabaseManager(contents);
    }

    /** `_save_results`. */
    method SaveResults(r: WorkerResult, now: string)
      requires db.Valid()
      modifies db
      ensures db.Valid()
      ensures db.State() == SaveResult(old(db.State()), r, now)
    {
      var v := r.video;
      if r.error.Some? && r.error.value != "" {
        db.MarkProcessed(v.hash, v.path, v.size, v.modified, now, 0.0, false, r.error);
        return;
      }
      var processingTime := if r.duration.Some? then r.duration.value else 0.0;
      db.MarkProcessed(v.hash, v.path, v.size, v.modified, now, processingTime, |r.segments| > 0, None);
      ghost var marked := db.State();
      ghost var rows := Rows(r.segments);
      for idx := 1 to |r.segments| + 1
        invariant db.Valid() && v.hash in db.videos
        invariant db.State() == AddRows(marked, v.hash, rows[..idx - 1])
      {
        var segment := r.segments[idx - 1];
        var err := db.AddMotionSegment(v.hash, idx, Row(segment));
        assert err.None?;
        assert rows[idx - 1] == Row(segment);
        AddRowsStep(marked, v.hash, rows, idx);
      }
      assert rows[..|rows|] == rows;
    }

    /** `_process_sequential`: each video analysed and saved before the next. */
    method ProcessSequential(videos: seq<VideoFile>, analyze: string -> Result<seq<MotionSegment>, string>,
                             elapsed: string -> real, now: string)
      returns (results: seq<WorkerResult>)
      requires db.Valid()
      modifies db
      ensures db.Valid()
      ensures results == Results(analyze, elapsed, videos)
      ensures db.State() == SaveAll(old(db.State()), results, now)
    {
      ghost var start := db.State();
      results := [];
      for i := 0 to |videos|
        invariant db.Valid()
        invariant results == Results(analyze, elapsed, videos[..i])
        invariant db.State() == SaveAll(start, results, now)
      {
        var r := ProcessVideoWorker(analyze, elapsed, videos[i]);
        SaveResults(r, now);
        SaveAllStep(start, results, r, now);
        assert videos[..i + 1][..i] == videos[..i];
        results := results + [r];
      }
      assert videos[..|videos|] == videos;
    }

    /** `processed_hashes`: the hashes of the scanned videos the store reports as processed. */
    method ProcessedHashes(videos: seq<VideoFile>) returns (hashes: set<string>)
      ensures forall h :: h in hashes ==> IsProcessed(db.State(), h)
      ensures forall k :: 0 <= k < |videos| ==> (videos[k].hash in hashes <==> IsProcessed(db.State(), videos[k].hash))
    {
      hashes := {};
      for j := 0 to |videos|
        invariant forall h :: h in hashes ==> IsProcessed(db.State(), h)
        invariant forall k :: 0 <= k < j ==> (videos[k].hash in hashes <==> IsProcessed(db.State(), videos[k].hash))
      {
        var b := db.IsProcessedQuery(videos[j].hash);
        if b {
          hashes := hashes + {videos[j].hash};
        }
      }
    }

    /** The loop of `_process_parallel` that saves one batch's results in order, after the results saved before. */
    method SaveBatch(batchResults: seq<WorkerResult>, now: string)
      requires db.Valid()
      modifies db
      ensures db.Valid()
      ensures db.State() == SaveAll(old(db.State()), batchResults, now)
    {
      ghost var start := db.State();
      for j := 0 to |batchResults|
        invariant db.Valid()
        invariant db.State() == SaveAll(start, batchResults[..j], now)
      {
        SaveResults(batchResults[j], now);
        SaveAllStep(start, batchResults[..j], batchResults[j], now);
        PrefixStep(batchResults, j);
      }
      assert batchResults[..|batchResults|] == batchResults;
    }

    /**
      `_process_parallel`: the videos in batches of 50, each batch analysed
      by the pool and then saved in order; returns the progress counts it
      reports. The store ends as after the sequential run.
     */
    method ProcessParallel(videos: seq<VideoFile>, analyze: string -> Result<seq<MotionSegment>, string>,
                           elapsed: string -> real, now: string)
      returns (results: seq<WorkerResult>, progress: seq<int>)
      requires db.Valid()
      modifies db
      ensures db.Valid()
      ensures results == Results(analyze, elapsed, videos)
      ensures db.State() == SaveAll(old(db.State()), results, now)
      ensures progress == ProgressReports(|videos|)
    {
      ghost var start := db.State();
      results := [];
      progress := [];
      var i := 0;
      while i < |videos|
        invariant i == |progress| * BatchSize
        invariant i < |videos| + BatchSize
        invariant db.Valid()
        invariant results == Results(analyze, elapsed, videos[..Min(i, |videos|)])
        invariant db.State() == SaveAll(start, results, now)
        invariant progress == ProgressUpTo(|progress|, |videos|)
        decreases |videos| - i
      {
        var end := Min(i + BatchSize, |videos|);
        var batchResults := Results(analyze, elapsed, videos[i..end]);
        BatchStep(analyze, elapsed, videos, i, results, progress);
        SaveBatch(batchResults, now);
        SaveAllAppend(start, results, batchResults, now);
        results := results + batchResults;
        progress := progress + [end];
        i := i + BatchSize;
      }
      assert videos[..Min(i, |videos|)] == videos;
      assert progress == ProgressReports(|videos|) by {
        BatchCountOf(|progress|, |videos|);
      }
    }

    /**
      `run_scan`: scan, clean up with the scanned paths, pick the videos
      whose hash is not processed, process them on the pool when more than
      one worker is configured (else one by one) and read the statistics.
      Returns the worker results and the statistics, or no statistics when
      there was nothing to process.
     */
    method RunScan(sha: string -> Scanner.Digest, stat: string -> Option<Scanner.FileStat>, entries: seq<Scanner.Entry>,
                   cpus: int, analyze: string -> Result<seq<MotionSegment>, string>, elapsed: string -> real, now: string)
      returns (results: seq<WorkerResult>, stats: Option<Stats>)
      requires db.Valid()
      modifies db
      ensures db.Valid()
      ensures var catalog := Scanner.Catalog(sha, root, stat, entries);
        && db.State() == RunScanSpec(old(db.State()), catalog, analyze, elapsed, now)
        && results == Results(analyze, elapsed, ToProcess(Cleanup(old(db.State()), CatalogPaths(catalog)), catalog))
      ensures stats.None? <==> results == []
      ensures stats.Some? ==> stats.value == Statistics(db.State())
    {
      var allVideos := Scanner.ScanAllVideos(sha, root, stat, entries);
      var existingPaths := set v | v in allVideos :: v.path;
      var deleted := db.CleanupDeletedVideos(existingPaths);
      var processedHashes := ProcessedHashes(allVideos);
      var videosToProcess := VideosToProcess(db.State(), allVideos, processedHashes);

      if |videosToProcess| == 0 {
        return [], None;
      }

      var workers := if parallelWorkers.Some? then parallelWorkers.value else Min(cpus, DefaultWorkerCap);
      if workers > 1 {
        var progress;
        results, progress := ProcessParallel(videosToProcess, analyze, elapsed, now);
      } else {
        results := ProcessSequential(videosToProcess, analyze, elapsed, now);
      }
      var s := db.GetStatistics();
      stats := Some(s);
    }
  }
}
