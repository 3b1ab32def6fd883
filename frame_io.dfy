/**
 * The frame store: a directory of `frame_NNNNN.png` files written by
 * extraction, read back window by window, and listed in name order to
 * rebuild a video. Frames are opaque images; a directory is the map from
 * frame index to the frame stored under that index's file name.
 */
module FrameIO {
  import opened Wrappers

  /** A decoded 8-bit raster image; the model never looks inside it. */
  datatype Frame = Frame(pixels: seq<bv8>)

  /**
   * An opened video container: the frame rate and frame count it reports, and
   * what successive `cap.read()` calls return (None is a failed read; reading
   * past the end of `results` fails too).
   */
  datatype VideoSource = VideoSource(fps: real, reportedCount: int, results: seq<Option<Frame>>)

  /** A written video: its frame rate and its frames in writing order. */
  datatype Video = Video(fps: real, frames: seq<Frame>)

  /** The errors that end a run. */
  datatype Error =
    | NoFramesFound            // reassembly found no frame file
    | MissingFrame(index: nat) // the copy of a frame file that does not exist
    | DenoiseFailed(index: nat) // the model call raised

  /** A directory of frame files, keyed by the index in the file name. */
  class FrameDir {
    var files: map<nat, Frame>

    constructor ()
      ensures files == map[]
    {
      files := map[];
    }
  }

  /** The directory holding the frames of `s` under indices 0 .. |s|-1. */
  function Store(s: seq<Frame>): map<nat, Frame>
  {
    map k | 0 <= k < |s| :: s[k]
  }

  /** Storing one more frame of s adds exactly that frame under its index. */
  lemma StoreExtend(base: map<nat, Frame>, s: seq<Frame>, k: nat)
    requires k < |s|
    ensures (base + Store(s[..k]))[k := s[k]] == base + Store(s[..k + 1])
  {
    assert Store(s[..k + 1]) == Store(s[..k])[k := s[k]];
  }

  /** What the n-th `cap.read()` returns. */
  function ReadAt(source: VideoSource, n: nat): Option<Frame>
  {
    if n < |source.results| then source.results[n] else None
  }

  /** The frames the container yields before its first failed read. */
  function Decoded(results: seq<Option<Frame>>): (s: seq<Frame>)
    ensures |s| <= |results|
    ensures forall k :: 0 <= k < |s| ==> results[k] == Some(s[k])
    ensures |s| < |results| ==> results[|s|].None?
  {
    if results == [] || results[0].None? then [] else [results[0].value] + Decoded(results[1..])
  }

  /**
   * extract_frames: write every successfully read frame under the next index,
   * stopping at the first failed read; return the frame rate and the number of
   * frames written (not the count the container reports).
   */
  method ExtractFrames(source: VideoSource, dir: FrameDir) returns (fps: real, count: nat)
    modifies dir
    ensures fps == source.fps
    ensures count == |Decoded(source.results)|
    ensures dir.files == old(dir.files) + Store(Decoded(source.results))
  {
    fps := source.fps;
    ghost var decoded := Decoded(source.results);
    ghost var base := dir.files;
    count := 0;
    while true
      invariant count <= |decoded|
      invariant dir.files == base + Store(decoded[..count])
      decreases |source.results| - count
    {
      var frame := ReadAt(source, count);
      if frame.None? {
        break;
      }
      assert count < |decoded| && frame.value == decoded[count];
      StoreExtend(base, decoded, count);
      dir.files := dir.files[count := frame.value];
      count := count + 1;
    }
    assert decoded[..count] == decoded;
  }

  /** The frames stored at start, start+1, ..., start+num-1, or None if one is missing. */
  function Window(files: map<nat, Frame>, start: nat, num: nat): Option<seq<Frame>>
  {
    if forall k :: start <= k < start + num ==> k in files
    then Some(seq(num, j requires 0 <= j < num => files[start + j]))
    else None
  }

  /**
   * load_frames: read num consecutive frames from start on; give up with None
   * at the first missing file, never returning a partial list.
   */
  method LoadFrames(dir: FrameDir, start: nat, num: nat) returns (r: Option<seq<Frame>>)
    ensures r.None? <==> exists k :: start <= k < start + num && k !in dir.files
    ensures r.Some? ==> |r.value| == num && forall j :: 0 <= j < num ==> r.value[j] == dir.files[start + j]
    ensures r == Window(dir.files, start, num)
  {
    var files := dir.files;
    var frames: seq<Frame> := [];
    for i := start to start + num
      invariant |frames| == i - start
      invariant forall k :: start <= k < i ==> k in files && frames[k - start] == files[k]
    {
      if i !in files {
        return None;
      }
      frames := frames + [files[i]];
    }
    assert forall j :: 0 <= j < num ==> frames[j] == files[start + j] by {
      forall j | 0 <= j < num ensures frames[j] == files[start + j] {
        assert start <= start + j < start + num;
      }
    }
    assert frames == seq(num, j requires 0 <= j < num => files[start + j]);
    return Some(frames);
  }

  /** m is the least index of s. */
  predicate IsLeast(m: nat, s: set<nat>)
  {
    m in s && forall k :: k in s ==> m <= k
  }

  /** A set of indices holding x has a least element (descending from x). */
  lemma {:induction false} MinExists(s: set<nat>, x: nat)
    requires x in s
    ensures exists m :: IsLeast(m, s)
    decreases x
  {
    if forall k :: k in s ==> x <= k {
      assert IsLeast(x, s);
    } else {
      var y :| y in s && y < x;
      MinExists(s, y);
    }
  }

  /** Python's `sorted` of a set of frame indices (properties in SortedKeysSpec). */
  ghost function SortedKeys(s: set<nat>): seq<nat>
    decreases s
  {
    if s == {} then []
    else
      var x :| x in s;
      MinExists(s, x);
      var m :| IsLeast(m, s);
      [m] + SortedKeys(s - {m})
  }

  /** The listing of a non-empty set starts with its least element. */
  lemma SortedKeysUnfold(s: set<nat>, m: nat)
    requires IsLeast(m, s)
    ensures SortedKeys(s) == [m] + SortedKeys(s - {m})
  {
    var r := SortedKeys(s);
    assert r[0] in s && forall k :: k in s ==> r[0] <= k;
    assert r[0] <= m && m <= r[0];
  }

  /** Taking the least element off the set moves it to the end of the listing so far. */
  lemma SortedKeysStep(r: seq<nat>, s: set<nat>, m: nat)
    requires IsLeast(m, s)
    ensures r + SortedKeys(s) == (r + [m]) + SortedKeys(s - {m})
  {
    SortedKeysUnfold(s, m);
  }

  ghost predicate Increasing(r: seq<nat>)
  {
    forall a, b :: 0 <= a < b < |r| ==> r[a] < r[b]
  }

  /** The sorted listing holds every index of the set exactly once, in ascending order. */
  lemma {:induction false} SortedKeysSpec(s: set<nat>)
    ensures |SortedKeys(s)| == |s|
    ensures forall k :: k in s <==> k in SortedKeys(s)
    ensures Increasing(SortedKeys(s))
    decreases s
  {
    if s != {} {
      var r := SortedKeys(s);
      var m := r[0];
      var rest := SortedKeys(s - {m});
      assert IsLeast(m, s);
      assert r == [m] + rest;
      SortedKeysSpec(s - {m});
      forall a, b | 0 <= a < b < |r|
        ensures r[a] < r[b]
      {
        if a > 0 {
          assert r[a] == rest[a - 1] && r[b] == rest[b - 1];
        } else {
          assert r[b] == rest[b - 1] && rest[b - 1] in s - {m};
        }
      }
    }
  }

  /** The directory listing in ascending index order. */
  method SortedIndices(s: set<nat>) returns (r: seq<nat>)
    ensures |r| == |s| && forall k :: k in s <==> k in r
    ensures Increasing(r)
    ensures r == SortedKeys(s)
  {
    r := [];
    var rest := s;
    while rest != {}
      invariant r + SortedKeys(rest) == SortedKeys(s)
      decreases rest
    {
      var x :| x in rest;
      MinExists(rest, x);
      var m :| IsLeast(m, rest);
      SortedKeysStep(r, rest, m);
      r := r + [m];
      rest := rest - {m};
    }
    assert r == r + SortedKeys(rest);
    SortedKeysSpec(s);
  }

  /** The video reassembly writes: the stored frames in ascending index order. */
  ghost function Assemble(files: map<nat, Frame>, fps: real): Result<Video, Error>
  {
    if files == map[] then Failure(NoFramesFound)
    else
      var order := SortedKeys(files.Keys);
      SortedKeysSpec(files.Keys);
      Success(Video(fps, seq(|order|, j requires 0 <= j < |order| => files[order[j]])))
  }

  /**
   * reassemble_video: fail when the directory holds no frame; otherwise write
   * every stored frame exactly once, in listing order, at the given rate.
   */
  method ReassembleVideo(dir: FrameDir, fps: real) returns (r: Result<Video, Error>)
    ensures r.Failure? <==> dir.files == map[]
    ensures r.Failure? ==> r.error == NoFramesFound
    ensures r.Success? ==> r.value.fps == fps && |r.value.frames| == |dir.files|
    ensures r.Success? ==> forall f :: f in r.value.frames <==> f in dir.files.Values
    ensures r == Assemble(dir.files, fps)
  {
    var files := dir.files;
    var order := SortedIndices(files.Keys);
    if |order| == 0 {
      assert files.Keys == {};
      return Failure(NoFramesFound);
    }
    var written: seq<Frame> := [];
    for j := 0 to |order|
      invariant |written| == j
      invariant forall t :: 0 <= t < j ==> written[t] == files[order[t]]
    {
      written := written + [files[order[j]]];
    }
    assert written == seq(|order|, j requires 0 <= j < |order| => files[order[j]]);
    r := Success(Video(fps, written));
    forall f | f in files.Values
      ensures f in written
    {
      var k :| k in files && files[k] == f;
      var t :| 0 <= t < |order| && order[t] == k;
      assert written[t] == f;
    }
  }
}
