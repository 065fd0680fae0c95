/**
  The result store: the `videos` and `motion_segments` tables of the SQLite
  database, as two maps.

  `videos` maps `video_hash` (the primary key) to the rest of the row, and
  `segments` maps the unique pair (`video_hash`, `segment_index`) to the
  rest of a segment row. The schema's constraints become the predicate
  `Store.Valid`: no two videos share a `video_path`, and every segment
  refers to a stored video (`PRAGMA foreign_keys = ON`). `INSERT OR REPLACE`
  deletes every row that conflicts with the new one on any unique
  constraint, and `ON DELETE CASCADE` removes the segments of each deleted
  video.
 */
module Database {
  import opened Wrappers

  /** One row of `videos`, without its key. */
  datatype VideoRecord = VideoRecord(
    path: string,
    fileSize: int,
    lastModified: int,
    processedAt: Option<string>,
    processingDuration: Option<real>,
    hasMotion: bool,
    errorMessage: Option<string>)

  /** The unique pair of a `motion_segments` row. */
  datatype SegmentKey = SegmentKey(videoHash: string, index: int)

  /** One row of `motion_segments`, without its key, its `id` and its `created_at`. */
  datatype SegmentRow = SegmentRow(
    startTime: string,
    endTime: string,
    durationSec: real,
    maxMotionArea: real,
    detectedObjects: string,
    previewCount: int)

  /** The counters `get_statistics` reports. */
  datatype Stats = Stats(totalProcessed: nat, videosWithMotion: nat, totalSegments: nat, totalPreviews: int)

  const ForeignKeyFailed := "FOREIGN KEY constraint failed"

  /** The contents of both tables. */
  datatype Store = Store(videos: map<string, VideoRecord>, segments: map<SegmentKey, SegmentRow>) {

    /** `video_path TEXT UNIQUE`. */
    ghost predicate UniquePaths() {
      forall a, b :: a in videos && b in videos && videos[a].path == videos[b].path ==> a == b
    }

    /** `FOREIGN KEY (video_hash) REFERENCES videos(video_hash)`. */
    ghost predicate ForeignKeys() {
      forall k :: k in segments ==> k.videoHash in videos
    }

    ghost predicate Valid() {
      UniquePaths() && ForeignKeys()
    }
  }

  const EmptyStore := Store(map[], map[])

  // ---------------------------------------------------------------------------
  // Queries

  /** `is_processed`: a row for the hash with `processed_at` set. */
  predicate IsProcessed(st: Store, h: string) {
    h in st.videos && st.videos[h].processedAt.Some?
  }

  /** `get_unprocessed_hashes`: the hashes whose row has no `processed_at`. */
  function Unprocessed(st: Store): set<string> {
    set h | h in st.videos && st.videos[h].processedAt.None?
  }

  lemma UnprocessedSpec(st: Store, h: string)
    ensures h in Unprocessed(st) <==> h in st.videos && !IsProcessed(st, h)
    ensures h in Unprocessed(st) ==> !IsProcessed(st, h)
  {
  }

  // ---------------------------------------------------------------------------
  // Writes

  /** The rows `INSERT OR REPLACE` of `rec` under `h` deletes: the one with the same hash and the one with the same path. */
  function Conflicting(st: Store, h: string, path: string): set<string> {
    set k | k in st.videos && (k == h || st.videos[k].path == path)
  }

  /** Delete the given videos and, by the cascade, their segments. */
  function DeleteVideos(st: Store, gone: set<string>): Store {
    Store(map k | k in st.videos && k !in gone :: st.videos[k],
          map k | k in st.segments && k.videoHash !in gone :: st.segments[k])
  }

  /** The upsert of `mark_processed`: replace the conflicting rows by the new one. */
  function UpsertVideo(st: Store, h: string, rec: VideoRecord): Store {
    var after := DeleteVideos(st, Conflicting(st, h, rec.path));
    after.(videos := after.videos[h := rec])
  }

  /** `add_motion_segment`: the upsert keyed by (hash, index), or the foreign-key failure when the video has no row. */
  function AddSegment(st: Store, key: SegmentKey, row: SegmentRow): Result<Store, string> {
    if key.videoHash !in st.videos then Failure(ForeignKeyFailed)
    else Success(st.(segments := st.segments[key := row]))
  }

  /** The stored paths missing from the given set (the set difference of `cleanup_deleted_videos`). */
  function DeletedPaths(st: Store, existing: set<string>): set<string> {
    (set k | k in st.videos :: st.videos[k].path) - existing
  }

  /** The videos whose path is no longer on disk. */
  function Removed(st: Store, existing: set<string>): set<string> {
    set k | k in st.videos && st.videos[k].path !in existing
  }

  /** `cleanup_deleted_videos`: the store afterwards. */
  function Cleanup(st: Store, existing: set<string>): Store {
    if DeletedPaths(st, existing) == {} then st else DeleteVideos(st, Removed(st, existing))
  }

  // ---------------------------------------------------------------------------
  // Statistics

  /** The segment rows whose keys lie in `keys`. */
  function Restrict(m: map<SegmentKey, SegmentRow>, keys: set<SegmentKey>): (r: map<SegmentKey, SegmentRow>)
    ensures r.Keys == keys * m.Keys
    ensures forall k :: k in r ==> r[k] == m[k]
  {
    map k | k in keys && k in m :: m[k]
  }

  /** `SUM(preview_count)` over some segment rows. */
  ghost function PreviewSum(m: map<SegmentKey, SegmentRow>): int
    decreases |m|
  {
    if m == map[] then 0
    else
      var k :| k in m;
      m[k].previewCount + PreviewSum(m - {k})
  }

  /** `get_statistics`, without the average processing time. */
  ghost function Statistics(st: Store): Stats {
    Stats(
      |set h | h in st.videos && st.videos[h].processedAt.Some?|,
      |set h | h in st.videos && st.videos[h].hasMotion|,
      |st.segments|,
      PreviewSum(st.segments))
  }

  /** The sum can take out any row first: it does not depend on the order rows are visited. */
  lemma {:induction false} PreviewSumRemove(m: map<SegmentKey, SegmentRow>, k: SegmentKey)
    requires k in m
    ensures PreviewSum(m) == m[k].previewCount + PreviewSum(m - {k})
    decreases |m|
  {
    var j :| j in m && PreviewSum(m) == m[j].previewCount + PreviewSum(m - {j});
    if j != k {
      var mj, mk := m - {j}, m - {k};
      PreviewSumRemove(mj, k);
      PreviewSumRemove(mk, j);
      assert mj - {k} == mk - {j};
    }
  }

  lemma {:induction false} PreviewSumNonNegative(m: map<SegmentKey, SegmentRow>)
    requires forall k :: k in m ==> m[k].previewCount >= 0
    ensures PreviewSum(m) >= 0
    decreases |m|
  {
    if m != map[] {
      var k :| k in m && PreviewSum(m) == m[k].previewCount + PreviewSum(m - {k});
      PreviewSumNonNegative(m - {k});
    }
  }

  /**
    `total_previews` is 0 when there are no segments, and is never negative
    while every stored `preview_count` is a length.
   */
  lemma StatisticsPreviews(st: Store)
    ensures st.segments == map[] ==> Statistics(st).totalPreviews == 0
    ensures (forall k :: k in st.segments ==> st.segments[k].previewCount >= 0) ==> Statistics(st).totalPreviews >= 0
  {
    if forall k :: k in st.segments ==> st.segments[k].previewCount >= 0 {
      PreviewSumNonNegative(st.segments);
    }
  }

  // ---------------------------------------------------------------------------
  // What the writes guarantee

  /**
    After `mark_processed(h, …)` the row under `h` is the new record and the
    video counts as processed; no other row has its path; no segment of the
    old row survives; every row that did not conflict, and its segments, is
    unchanged. The schema's constraints still hold.
   */
  lemma MarkProcessedSpec(st: Store, h: string, rec: VideoRecord)
    requires st.Valid()
    ensures var after := UpsertVideo(st, h, rec);
      && after.Valid()
      && h in after.videos && after.videos[h] == rec
      && (rec.processedAt.Some? ==> IsProcessed(after, h))
      && (forall k :: k in after.videos && after.videos[k].path == rec.path ==> k == h)
      && (forall k :: k in after.segments ==> k.videoHash != h)
      && (forall k :: k in st.videos && k != h && st.videos[k].path != rec.path ==>
            k in after.videos && after.videos[k] == st.videos[k])
      && (forall k :: k in st.segments && k.videoHash != h && st.videos[k.videoHash].path != rec.path ==>
            k in after.segments && after.segments[k] == st.segments[k])
      && (forall k :: k in after.videos ==> k == h || k in st.videos)
      && (forall k :: k in after.videos && k != h ==> after.videos[k] == st.videos[k])
      && (forall k :: k in after.segments ==> k in st.segments && after.segments[k] == st.segments[k])
  {
  }

  /**
    `add_motion_segment` stores the row under its (hash, index) pair,
    replacing a row with the same pair rather than adding a second one, and
    fails on the foreign key exactly when the video has no row.
   */
  lemma AddSegmentSpec(st: Store, key: SegmentKey, row: SegmentRow)
    requires st.Valid()
    ensures AddSegment(st, key, row).Failure? <==> key.videoHash !in st.videos
    ensures AddSegment(st, key, row).Success? ==>
      var after := AddSegment(st, key, row).value;
      && after.Valid()
      && after.videos == st.videos
      && key in after.segments && after.segments[key] == row
      && (forall k :: k in st.segments && k != key ==> k in after.segments && after.segments[k] == st.segments[k])
      && after.segments.Keys == st.segments.Keys + {key}
      && (key in st.segments ==> |after.segments| == |st.segments|)
  {
    if key.videoHash in st.videos && key in st.segments {
      assert st.segments[key := row].Keys == st.segments.Keys;
    }
  }

  lemma {:induction false} InjectiveImageSize(keys: set<string>, f: string -> string)
    requires forall a, b :: a in keys && b in keys && f(a) == f(b) ==> a == b
    ensures |set k | k in keys :: f(k)| == |keys|
    decreases |keys|
  {
    if keys != {} {
      var k :| k in keys;
      var rest := keys - {k};
      InjectiveImageSize(rest, f);
      assert (set x | x in keys :: f(x)) == (set x | x in rest :: f(x)) + {f(k)};
    }
  }

  /** With unique paths, the set difference of paths has one element per video to delete. */
  lemma DeletedPathsCount(st: Store, existing: set<string>)
    requires st.UniquePaths()
    ensures |DeletedPaths(st, existing)| == |Removed(st, existing)|
    ensures DeletedPaths(st, existing) == {} <==> Removed(st, existing) == {}
  {
    var gone := Removed(st, existing);
    var path := k => if k in st.videos then st.videos[k].path else "";
    InjectiveImageSize(gone, path);
    var image := set k | k in gone :: path(k);
    forall x | x in DeletedPaths(st, existing) ensures x in image {
      var k :| k in st.videos && st.videos[k].path == x;
      assert k in gone && path(k) == x;
    }
    assert image == DeletedPaths(st, existing);
  }

  /**
    `cleanup_deleted_videos(S)` deletes exactly the videos whose path is not
    in S, with their segments, and returns how many it deleted; with none to
    delete it returns 0 and changes nothing. Every kept video and each of
    its segments is unchanged, and the constraints still hold.
   */
  lemma CleanupSpec(st: Store, existing: set<string>)
    requires st.Valid()
    ensures var after := Cleanup(st, existing);
      && after.Valid()
      && |DeletedPaths(st, existing)| == |st.videos| - |after.videos|
      && (DeletedPaths(st, existing) == {} ==> after == st)
      && (forall k :: k in after.videos <==> k in st.videos && st.videos[k].path in existing)
      && (forall k :: k in after.videos ==> after.videos[k] == st.videos[k])
      && (forall k :: k in after.segments <==> k in st.segments && st.videos[k.videoHash].path in existing)
      && (forall k :: k in after.segments ==> after.segments[k] == st.segments[k])
  {
    DeletedPathsCount(st, existing);
    var after := Cleanup(st, existing);
    if DeletedPaths(st, existing) != {} {
      var gone := Removed(st, existing);
      assert after.videos.Keys == st.videos.Keys - gone;
      assert |after.videos.Keys| == |st.videos.Keys| - |gone|;
    }
  }

  // ---------------------------------------------------------------------------
  // The store object

  /** `DatabaseManager`: the two tables as maps its methods update. */
  class DatabaseManager {
    var videos: map<string, VideoRecord>
    var segments: map<SegmentKey, SegmentRow>

    function State(): Store
      reads this
    {
      Store(videos, segments)
    }

    ghost predicate Valid()
      reads this
    {
      State().Valid()
    }

    /** Opening a database file: the tables hold whatever the file holds, which the schema keeps valid. */
    constructor (contents: Store)
      requires contents.Valid()
      ensures Valid() && State() == contents
    {
      videos := contents.videos;
      segments := contents.segments;
    }

    /** `is_processed`; `UnprocessedSpec` relates it to the unprocessed hashes. */
    method IsProcessedQuery(h: string) returns (b: bool)
      ensures b <==> IsProcessed(State(), h)
    {
      b := h in videos && videos[h].processedAt.Some?;
    }

    /** `get_unprocessed_hashes`; `UnprocessedSpec` states which hashes `Unprocessed` holds. */
    method GetUnprocessedHashes() returns (hs: set<string>)
      ensures hs == Unprocessed(State())
      ensures forall h :: h in hs ==> h in videos && !IsProcessed(State(), h)
    {
      hs := set h | h in videos && videos[h].processedAt.None?;
    }

    /** `mark_processed`, with `now` standing for `datetime.utcnow().isoformat()`. */
    method MarkProcessed(h: string, path: string, fileSize: int, lastModified: int, now: string,
                         duration: real, hasMotion: bool, error: Option<string>)
      requires Valid()
      modifies this
      ensures Valid()
      ensures State() == UpsertVideo(old(State()), h,
                VideoRecord(path, fileSize, lastModified, Some(now), Some(duration), hasMotion, error))
      ensures IsProcessed(State(), h)
    {
      var rec := VideoRecord(path, fileSize, lastModified, Some(now), Some(duration), hasMotion, error);
      MarkProcessedSpec(State(), h, rec);
      var gone := set k | k in videos && (k == h || videos[k].path == path);
      segments := map k | k in segments && k.videoHash !in gone :: segments[k];
      videos := (map k | k in videos && k !in gone :: videos[k])[h := rec];
    }

    /** `add_motion_segment`: None on success, the error it raises otherwise (the table is then unchanged). */
    method AddMotionSegment(h: string, index: int, row: SegmentRow) returns (err: Option<string>)
      requires Valid()
      modifies this
      ensures Valid()
      ensures err.None? <==> h in old(videos)
      ensures err.None? ==> State() == AddSegment(old(State()), SegmentKey(h, index), row).value
      ensures err.Some? ==> State() == old(State())
    {
      AddSegmentSpec(State(), SegmentKey(h, index), row);
      if h !in videos {
        return Some(ForeignKeyFailed);
      }
      segments := segments[SegmentKey(h, index) := row];
      err := None;
    }

    /** `cleanup_deleted_videos`: delete the videos whose path is not on disk and report how many. */
    method CleanupDeletedVideos(existing: set<string>) returns (count: nat)
      requires Valid()
      modifies this
      ensures Valid()
      ensures State() == Cleanup(old(State()), existing)
      ensures count == |DeletedPaths(old(State()), existing)| == |old(videos)| - |videos|
    {
      CleanupSpec(State(), existing);
      var allPaths := set k | k in videos :: videos[k].path;
      var deletedPaths := allPaths - existing;
      if deletedPaths == {} {
        return 0;
      }
      DeletedPathsCount(State(), existing);
      var gone := set k | k in videos && videos[k].path in deletedPaths;
      assert gone == Removed(State(), existing);
      segments := map k | k in segments && k.videoHash !in gone :: segments[k];
      videos := map k | k in videos && k !in gone :: videos[k];
      count := |gone|;
    }

    /** `get_statistics`: three counts and the preview sum, visiting the segment rows in any order. */
    method GetStatistics() returns (stats: Stats)
      ensures stats == Statistics(State())
    {
      var processed := set h | h in videos && videos[h].processedAt.Some?;
      var withMotion := set h | h in videos && videos[h].hasMotion;
      var total := 0;
      var rest := segments.Keys;
      assert Restrict(segments, rest) == segments;
      while rest != {}
        invariant rest <= segments.Keys
        invariant total + PreviewSum(Restrict(segments, rest)) == PreviewSum(segments)
        decreases |rest|
      {
        var k :| k in rest;
        var before := Restrict(segments, rest);
        PreviewSumRemove(before, k);
        assert before - {k} == Restrict(segments, rest - {k});
        total := total + segments[k].previewCount;
        rest := rest - {k};
      }
      assert Restrict(segments, rest) == map[];
      stats := Stats(|processed|, |withMotion|, |segments|, total);
    }
  }
}
