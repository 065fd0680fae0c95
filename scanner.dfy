/**
  The video scanner: which discovered files form the catalog, and the stable
  identity hash of each.

  Walking the directory tree and `stat` are I/O: the walk's result is given
  as a list of entries (the path string `rglob` yields and whether it is a
  regular file), and `stat` is a function from a path to its size and
  modification time, or None when it raises. SHA-256 is an uninterpreted
  function to 64 hexadecimal digits.
 */
module Scanner {
  import opened Wrappers
  import opened Text

  /** One path yielded by `root_dir.rglob("*")`. */
  datatype Entry = Entry(path: string, isFile: bool)

  /** What `Path.stat()` reports when it succeeds. */
  datatype FileStat = FileStat(size: int, mtime: real)

  /** The `VideoFile` record of the catalog. */
  datatype VideoFile = VideoFile(path: string, hash: string, size: int, modified: int)

  /** A SHA-256 hex digest. */
  type Digest = s: string | |s| == 64 witness seq(64, _ => '0')

  /** How many digest characters the identity hash keeps. */
  const HashLength: nat := 16

  const VideoExtensions: set<string> := {".mp4", ".mov", ".mkv", ".avi", ".m4v", ".webm", ".ts"}
  const SkipPatterns: seq<string> := ["@SSRECMETA", "@Snapshot", "Thumbnail", "Preview", "RecLog"]

  // ---------------------------------------------------------------------------
  // Path helpers

  /** `Path.name`: the text after the last '/'. */
  function Name(path: string): (name: string)
    ensures '/' !in name
    ensures |name| <= |path| && name == path[|path| - |name|..]
  {
    path[LastIndexOf(path, '/') + 1..]
  }

  /** `Path.suffix`: from the last '.' of the name, empty when that dot is the first or the last character. */
  function Suffix(path: string): (r: string)
    ensures r == "" || (|r| >= 2 && r[0] == '.' && '.' !in r[1..])
  {
    var name := Name(path);
    var i := LastIndexOf(name, '.');
    if 0 < i < |name| - 1 then name[i..] else ""
  }

  /** `str(path.relative_to(root))`, or None when `relative_to` raises because the path is not under the root. */
  function RelativeTo(root: string, path: string): (r: Option<string>)
    ensures r.Some? ==> path == root + "/" + r.value
  {
    if |root| + 1 <= |path| && path[..|root| + 1] == root + "/" then
      assert path == path[..|root| + 1] + path[|root| + 1..];
      Some(path[|root| + 1..])
    else None
  }

  // ---------------------------------------------------------------------------
  // The filter of `_find_video_files`

  predicate HasVideoExtension(path: string) {
    Lower(Suffix(path)) in VideoExtensions
  }

  /** Some skip pattern occurs, case-sensitively, in the full path string. */
  predicate Skipped(path: string) {
    exists k :: 0 <= k < |SkipPatterns| && IsSubstring(SkipPatterns[k], path)
  }

  predicate IsVideo(e: Entry) {
    e.isFile && HasVideoExtension(e.path) && !Skipped(e.path)
  }

  function Paths(entries: seq<Entry>): (r: seq<string>)
    ensures |r| == |entries|
    ensures forall k :: 0 <= k < |entries| ==> r[k] == entries[k].path
  {
    if entries == [] then [] else Paths(entries[..|entries| - 1]) + [entries[|entries| - 1].path]
  }

  /** The paths of the entries `keep` accepts, in order. */
  function Select(keep: Entry -> bool, entries: seq<Entry>): seq<string> {
    if entries == [] then []
    else
      var init := Select(keep, entries[..|entries| - 1]);
      var e := entries[|entries| - 1];
      if keep(e) then init + [e.path] else init
  }

  /** The paths `_find_video_files` returns, in discovery order. */
  function VideoPaths(entries: seq<Entry>): seq<string> {
    Select(IsVideo, entries)
  }

  lemma {:induction false} SelectMembers(keep: Entry -> bool, entries: seq<Entry>, path: string)
    ensures path in Select(keep, entries) <==> exists e :: e in entries && e.path == path && keep(e)
  {
    if entries != [] {
      var init := entries[..|entries| - 1];
      var last := entries[|entries| - 1];
      SelectMembers(keep, init, path);
      assert entries == init + [last];
      assert forall e :: e in entries <==> e in init || e == last;
    }
  }

  lemma {:induction false} SelectInOrder(keep: Entry -> bool, entries: seq<Entry>)
    ensures Subsequence(Select(keep, entries), Paths(entries))
  {
    if entries != [] {
      var init := entries[..|entries| - 1];
      var e := entries[|entries| - 1];
      SelectInOrder(keep, init);
      var vp := Select(keep, init);
      if keep(e) {
        var r := vp + [e.path];
        assert r[..|r| - 1] == vp;
        assert Paths(entries)[..|entries| - 1] == Paths(init);
      } else {
        SubsequenceExtend(vp, Paths(init), e.path);
      }
    }
  }

  /**
    A path is kept exactly when some discovered entry with that path is a
    file with a video extension and no skip pattern in its path.
   */
  lemma VideoPathsMembers(entries: seq<Entry>, path: string)
    ensures path in VideoPaths(entries) <==> exists e :: e in entries && e.path == path && IsVideo(e)
  {
    SelectMembers(IsVideo, entries, path);
  }

  /** The kept paths keep the discovery order: they are a subsequence of all discovered paths. */
  lemma VideoPathsInOrder(entries: seq<Entry>)
    ensures Subsequence(VideoPaths(entries), Paths(entries))
  {
    SelectInOrder(IsVideo, entries);
  }

  /** In `s + [c] + t` with no `c` in `t`, the last `c` is the one at `|s|`. */
  lemma {:induction false} LastIndexOfBefore(s: string, c: char, t: string)
    requires c !in t
    ensures LastIndexOf(s + [c] + t, c) == |s|
    decreases |t|
  {
    var u := s + [c] + t;
    if t == [] {
      assert u[|u| - 1] == c;
    } else {
      var init := t[..|t| - 1];
      assert u[..|u| - 1] == s + [c] + init;
      assert u[|u| - 1] == t[|t| - 1] && t[|t| - 1] in t;
      assert c !in init by {
        assert forall k :: 0 <= k < |init| ==> init[k] == t[k];
      }
      LastIndexOfBefore(s, c, init);
    }
  }

  /** The name of a path is what follows its last '/'. */
  lemma NameAfterSlash(dir: string, name: string)
    requires '/' !in name
    ensures Name(dir + "/" + name) == name
  {
    var path := dir + "/" + name;
    LastIndexOfBefore(dir, '/', name);
    assert path[|dir| + 1..] == name;
  }

  /** The last dot of "stem.ext" is the one before the extension. */
  lemma LastDotOfFileName(stem: string, ext: string)
    requires '.' !in ext
    ensures LastIndexOf(stem + "." + ext, '.') == |stem|
  {
    LastIndexOfBefore(stem, '.', ext);
  }

  /** The name of "dir/stem.ext" is "stem.ext". */
  lemma NameOfFile(dir: string, stem: string, ext: string)
    requires '/' !in stem && '/' !in ext
    ensures Name(dir + "/" + stem + "." + ext) == stem + "." + ext
  {
    var name := stem + "." + ext;
    assert dir + "/" + stem + "." + ext == dir + "/" + name;
    NameAfterSlash(dir, name);
  }

  /** A file "stem.ext" in any directory has suffix ".ext". */
  lemma SuffixOfFileName(dir: string, stem: string, ext: string)
    requires |stem| > 0 && |ext| > 0
    requires '/' !in stem && '/' !in ext && '.' !in ext
    ensures Suffix(dir + "/" + stem + "." + ext) == "." + ext
  {
    var name := stem + "." + ext;
    NameOfFile(dir, stem, ext);
    LastDotOfFileName(stem, ext);
    assert name[|stem|..] == "." + ext;
  }

  /** ".MP4" lower-cases to ".mp4". */
  lemma LowerUpperMp4()
    ensures Lower(".MP4") == ".mp4"
  {
    assert LowerChar('4') == '4' && LowerChar('P') == 'p' && LowerChar('M') == 'm' && LowerChar('.') == '.';
    assert Lower("4") == "4";
    assert Lower("P4") == "p4";
    assert Lower("MP4") == "mp4";
  }

  /** Extensions are compared after lower-casing: "CLIP.MP4" is a video. */
  lemma UpperCaseExtension(dir: string, stem: string)
    requires |stem| > 0 && '/' !in stem
    ensures HasVideoExtension(dir + "/" + stem + ".MP4")
  {
    var prefix := dir + "/" + stem;
    var path := prefix + ".MP4";
    assert Suffix(path) == ".MP4" by {
      DotMp4();
      DotExtension(prefix, "MP4", ".MP4");
      SuffixOfFileName(dir, stem, "MP4");
    }
    LowerUpperMp4();
    assert ".mp4" in VideoExtensions;
  }

  lemma DotMp4()
    ensures "." + "MP4" == ".MP4"
  {
  }

  lemma DotExtension(prefix: string, ext: string, dotted: string)
    requires dotted == "." + ext
    ensures prefix + "." + ext == prefix + dotted
  {
  }

  /** A name whose only dot is its first character, such as ".mp4", has no suffix and is never a video. */
  lemma LeadingDotIsNoSuffix(dir: string, ext: string)
    requires '/' !in ext && '.' !in ext
    ensures Suffix(dir + "/." + ext) == ""
    ensures !HasVideoExtension(dir + "/." + ext)
  {
    var name := "." + ext;
    assert dir + "/." + ext == dir + "/" + name;
    NameAfterSlash(dir, name);
    assert LastIndexOf(name, '.') == 0 by {
      assert "" + ['.'] + ext == name;
      LastIndexOfBefore("", '.', ext);
    }
    assert Lower("") == "";
  }

  // ---------------------------------------------------------------------------
  // Identity hash

  /** `_generate_hash`: the first 16 hex digits of SHA-256 of the root-relative path. */
  function GenerateHash(sha: string -> Digest, root: string, path: string): (r: Option<string>)
    ensures r.Some? ==> |r.value| == HashLength
  {
    match RelativeTo(root, path)
    case None => None
    case Some(rel) => Some(sha(rel)[..HashLength])
  }

  /**
    The identity hash depends only on the root-relative path: the same
    relative path under two roots gets the same 16-character hash.
   */
  lemma HashIgnoresRoot(sha: string -> Digest, root1: string, root2: string, rel: string)
    ensures GenerateHash(sha, root1, root1 + "/" + rel) == GenerateHash(sha, root2, root2 + "/" + rel)
    ensures GenerateHash(sha, root1, root1 + "/" + rel).Some?
  {
    var p1, p2 := root1 + "/" + rel, root2 + "/" + rel;
    assert p1[..|root1| + 1] == root1 + "/" && p1[|root1| + 1..] == rel;
    assert p2[..|root2| + 1] == root2 + "/" && p2[|root2| + 1..] == rel;
  }

  // ---------------------------------------------------------------------------
  // The catalog of `scan_all_videos`

  /** The record for one path, or None when `stat` or `relative_to` raises (the `except` branch). */
  function Record(sha: string -> Digest, root: string, stat: string -> Option<FileStat>, path: string): Option<VideoFile> {
    match (stat(path), GenerateHash(sha, root, path))
    case (Some(st), Some(h)) => Some(VideoFile(path, h, st.size, Truncate(st.mtime)))
    case _ => None
  }

  /** The records for a list of paths, skipping those whose record fails. */
  function Records(sha: string -> Digest, root: string, stat: string -> Option<FileStat>, paths: seq<string>): seq<VideoFile> {
    if paths == [] then []
    else
      var init := Records(sha, root, stat, paths[..|paths| - 1]);
      match Record(sha, root, stat, paths[|paths| - 1])
      case Some(v) => init + [v]
      case None => init
  }

  /** The catalog `scan_all_videos` returns. */
  function Catalog(sha: string -> Digest, root: string, stat: string -> Option<FileStat>, entries: seq<Entry>): seq<VideoFile> {
    Records(sha, root, stat, VideoPaths(entries))
  }

  lemma {:induction false} RecordsAppend(sha: string -> Digest, root: string, stat: string -> Option<FileStat>, xs: seq<string>, ys: seq<string>)
    ensures Records(sha, root, stat, xs + ys) == Records(sha, root, stat, xs) + Records(sha, root, stat, ys)
    decreases |ys|
  {
    if ys == [] {
      assert xs + ys == xs;
    } else {
      var ys' := ys[..|ys| - 1];
      assert (xs + ys)[..|xs + ys| - 1] == xs + ys';
      assert (xs + ys)[|xs + ys| - 1] == ys[|ys| - 1];
      RecordsAppend(sha, root, stat, xs, ys');
    }
  }

  /**
    A file whose `stat` fails is left out and the scan carries on: the
    records of the other paths are exactly those before it followed by
    those after it.
   */
  lemma StatFailureSkipped(sha: string -> Digest, root: string, stat: string -> Option<FileStat>, paths: seq<string>, i: nat)
    requires i < |paths| && stat(paths[i]).None?
    ensures Records(sha, root, stat, paths) == Records(sha, root, stat, paths[..i]) + Records(sha, root, stat, paths[i + 1..])
  {
    assert paths == paths[..i] + ([paths[i]] + paths[i + 1..]);
    RecordsAppend(sha, root, stat, paths[..i], [paths[i]] + paths[i + 1..]);
    RecordsAppend(sha, root, stat, [paths[i]], paths[i + 1..]);
    assert [paths[i]][..0] == [];
  }

  /**
    Every catalog record is a filtered path whose `stat` succeeded, with its
    size, its modification time truncated to whole seconds, and its
    identity hash; every such path has a record.
   */
  lemma {:induction false} RecordsMembers(sha: string -> Digest, root: string, stat: string -> Option<FileStat>, paths: seq<string>, v: VideoFile)
    ensures v in Records(sha, root, stat, paths) <==>
      v.path in paths && stat(v.path).Some?
      && GenerateHash(sha, root, v.path) == Some(v.hash)
      && v.size == stat(v.path).value.size && v.modified == Truncate(stat(v.path).value.mtime)
  {
    if paths != [] {
      var init := paths[..|paths| - 1];
      RecordsMembers(sha, root, stat, init, v);
      assert forall x :: x in paths <==> x in init || x == paths[|paths| - 1];
    }
  }

  // ---------------------------------------------------------------------------
  // The imperative scanner

  /** `_find_video_files`: the loop over the walk that appends every video path. */
  method FindVideoFiles(entries: seq<Entry>) returns (videos: seq<string>)
    ensures videos == VideoPaths(entries)
  {
    videos := [];
    for i := 0 to |entries|
      invariant videos == Select(IsVideo, entries[..i])
    {
      assert entries[..i + 1][..i] == entries[..i];
      var e := entries[i];
      if !e.isFile {
        continue;
      }
      if Lower(Suffix(e.path)) !in VideoExtensions {
        continue;
      }
      if Skipped(e.path) {
        continue;
      }
      videos := videos + [e.path];
    }
    assert entries[..|entries|] == entries;
  }

  /** `scan_all_videos`: stat and hash every video path, skipping the ones that raise. */
  method ScanAllVideos(sha: string -> Digest, root: string, stat: string -> Option<FileStat>, entries: seq<Entry>)
    returns (videos: seq<VideoFile>)
    ensures videos == Catalog(sha, root, stat, entries)
  {
    var paths := FindVideoFiles(entries);
    videos := [];
    for i := 0 to |paths|
      invariant videos == Records(sha, root, stat, paths[..i])
    {
      assert paths[..i + 1][..i] == paths[..i];
      var path := paths[i];
      match stat(path)
      case None =>
      case Some(st) =>
        match GenerateHash(sha, root, path)
        case None =>
        case Some(h) =>
          videos := videos + [VideoFile(path, h, st.size, Truncate(st.mtime))];
    }
    assert paths[..|paths|] == paths;
  }
}
