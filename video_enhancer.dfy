/**
 * The enhancement pipeline of process_video: extract the frames into a
 * temporary workspace, produce one enhanced frame per index from a clamped
 * 5-frame window (or copy the frame through when no full window can be
 * loaded), reassemble the enhanced frames into a video, and always remove
 * the workspace afterwards.
 */
module VideoEnhancer {
  import opened Wrappers
  import opened FrameIO

  /**
   * The model call (denoise_frames): a window of frames and the noise level
   * give one enhanced frame; None stands for the call raising.
   */
  type Denoiser = (seq<Frame>, int) -> Option<Frame>

  /**
   * The first index of the window used for output frame i of total: the first
   * two frames share the first full window, the last two share the last one,
   * and every other frame sits in the middle of its window.
   */
  function WindowStart(i: nat, total: nat): (start: nat)
    requires i < total
    ensures total >= 5 ==> start + 5 <= total && start <= i < start + 5
    ensures total < 5 ==> start == 0
  {
    if i < 2 then 0
    else if i >= total - 2 then (if total - 5 > 0 then total - 5 else 0)
    else i - 2
  }

  /**
   * Consecutive output frames use the same window or the next one; between
   * two interior frames the window moves by exactly one.
   */
  lemma WindowStartSlides(i: nat, total: nat)
    requires i + 1 < total
    ensures WindowStart(i, total) <= WindowStart(i + 1, total) <= WindowStart(i, total) + 1
    ensures 2 <= i && i + 1 < total - 2 ==> WindowStart(i + 1, total) == WindowStart(i, total) + 1
  {
  }

  /**
   * The frame written to the enhanced directory under index i: the denoised
   * window when all five of its frames exist, otherwise a copy of frame i.
   */
  function EnhancedFrame(frames: map<nat, Frame>, total: nat, i: nat, sigma: int, denoise: Denoiser): Result<Frame, Error>
    requires i < total
  {
    match Window(frames, WindowStart(i, total), 5)
    case None =>
      if i in frames then Success(frames[i]) else Failure(MissingFrame(i))
    case Some(window) =>
      match denoise(window, sigma)
      case None => Failure(DenoiseFailed(i))
      case Some(f) => Success(f)
  }

  /**
   * The denoised clamped window when all five of its frames are present,
   * otherwise a copy of frame `i`; the only errors are a missing frame `i`
   * and a failed model call, both naming `i`.
   */
  lemma EnhancedFrameCases(frames: map<nat, Frame>, total: nat, i: nat, sigma: int, denoise: Denoiser)
    requires i < total
    ensures var r, w := EnhancedFrame(frames, total, i, sigma, denoise), Window(frames, WindowStart(i, total), 5);
      (r.Failure? ==> r.error == MissingFrame(i) || r.error == DenoiseFailed(i)) &&
      (r == Failure(MissingFrame(i)) <==> w.None? && i !in frames) &&
      (w.None? && i in frames ==> r == Success(frames[i])) &&
      (w.Some? ==> (r == Failure(DenoiseFailed(i)) <==> denoise(w.value, sigma).None?)) &&
      (w.Some? && denoise(w.value, sigma).Some? ==> r == Success(denoise(w.value, sigma).value))
  {
  }

  /** What the denoising loop has written, and the error that stopped it, if any. */
  datatype Progress = Progress(written: map<nat, Frame>, failure: Option<Error>)

  /** The state of the denoising loop after the indices 0 .. k-1 have been handled. */
  function ScheduleUpTo(frames: map<nat, Frame>, total: nat, k: nat, sigma: int, denoise: Denoiser): Progress
    requires k <= total
  {
    if k == 0 then Progress(map[], None)
    else
      var p := ScheduleUpTo(frames, total, k - 1, sigma, denoise);
      if p.failure.Some? then p
      else match EnhancedFrame(frames, total, k - 1, sigma, denoise)
        case Success(f) => Progress(p.written[k - 1 := f], None)
        case Failure(e) => Progress(p.written, Some(e))
  }

  /** Every entry the loop writes is the enhanced frame of an index below k. */
  lemma {:induction false} ScheduleWrites(frames: map<nat, Frame>, total: nat, k: nat, sigma: int, denoise: Denoiser)
    requires k <= total
    ensures var p := ScheduleUpTo(frames, total, k, sigma, denoise);
      forall i :: i in p.written ==> i < k && EnhancedFrame(frames, total, i, sigma, denoise) == Success(p.written[i])
  {
    if k > 0 {
      ScheduleWrites(frames, total, k - 1, sigma, denoise);
      var q := ScheduleUpTo(frames, total, k - 1, sigma, denoise);
      var p := ScheduleUpTo(frames, total, k, sigma, denoise);
      if q.failure.None? {
        var e := EnhancedFrame(frames, total, k - 1, sigma, denoise);
        if e.Success? {
          assert p.written == q.written[k - 1 := e.value];
        } else {
          assert p.written == q.written;
        }
      } else {
        assert p == q;
      }
    }
  }

  /** The loop runs to k iff every index below k succeeds, and then every such index is written. */
  lemma {:induction false} ScheduleCompletes(frames: map<nat, Frame>, total: nat, k: nat, sigma: int, denoise: Denoiser)
    requires k <= total
    ensures var p := ScheduleUpTo(frames, total, k, sigma, denoise);
      (p.failure.None? <==> forall i :: 0 <= i < k ==> EnhancedFrame(frames, total, i, sigma, denoise).Success?) &&
      (p.failure.None? ==> forall i :: 0 <= i < k ==> i in p.written)
  {
    if k > 0 {
      ScheduleCompletes(frames, total, k - 1, sigma, denoise);
    }
  }

  /** A failing loop stops at the first failing index j, with exactly the indices before j written. */
  lemma {:induction false} ScheduleStopsAtFirst(frames: map<nat, Frame>, total: nat, k: nat, sigma: int, denoise: Denoiser)
    requires k <= total
    ensures var p := ScheduleUpTo(frames, total, k, sigma, denoise);
      p.failure.Some? ==> exists j :: 0 <= j < k && EnhancedFrame(frames, total, j, sigma, denoise) == Failure(p.failure.value)
                                      && forall i :: i in p.written <==> 0 <= i < j
  {
    if k > 0 {
      var q := ScheduleUpTo(frames, total, k - 1, sigma, denoise);
      var p := ScheduleUpTo(frames, total, k, sigma, denoise);
      if q.failure.Some? {
        ScheduleStopsAtFirst(frames, total, k - 1, sigma, denoise);
        assert p == q;
      } else {
        var e := EnhancedFrame(frames, total, k - 1, sigma, denoise);
        if e.Failure? {
          ScheduleWrites(frames, total, k - 1, sigma, denoise);
          ScheduleCompletes(frames, total, k - 1, sigma, denoise);
          assert p == Progress(q.written, Some(e.error));
          assert forall i :: i in p.written <==> 0 <= i < k - 1;
        }
      }
    }
  }

  /**
   * The loop writes the enhanced frame of each index below k exactly once and
   * nothing else; it completes iff every index succeeds, and otherwise stops
   * at the first failing index with exactly the indices before it written.
   */
  lemma ScheduleSpec(frames: map<nat, Frame>, total: nat, k: nat, sigma: int, denoise: Denoiser)
    requires k <= total
    ensures var p := ScheduleUpTo(frames, total, k, sigma, denoise);
      forall i :: i in p.written ==> i < k && EnhancedFrame(frames, total, i, sigma, denoise) == Success(p.written[i])
    ensures var p := ScheduleUpTo(frames, total, k, sigma, denoise);
      p.failure.None? <==> forall i :: 0 <= i < k ==> EnhancedFrame(frames, total, i, sigma, denoise).Success?
    ensures var p := ScheduleUpTo(frames, total, k, sigma, denoise);
      p.failure.None? ==> forall i :: 0 <= i < k ==> i in p.written
    ensures var p := ScheduleUpTo(frames, total, k, sigma, denoise);
      p.failure.Some? ==> exists j :: 0 <= j < k && EnhancedFrame(frames, total, j, sigma, denoise) == Failure(p.failure.value)
                                      && forall i :: i in p.written <==> 0 <= i < j
  {
    ScheduleWrites(frames, total, k, sigma, denoise);
    ScheduleCompletes(frames, total, k, sigma, denoise);
    ScheduleStopsAtFirst(frames, total, k, sigma, denoise);
  }

  /** Once the loop has stopped on an error, later indices change nothing. */
  lemma {:induction false} ScheduleStops(frames: map<nat, Frame>, total: nat, k: nat, k': nat, sigma: int, denoise: Denoiser)
    requires k <= k' <= total
    requires ScheduleUpTo(frames, total, k, sigma, denoise).failure.Some?
    ensures ScheduleUpTo(frames, total, k', sigma, denoise) == ScheduleUpTo(frames, total, k, sigma, denoise)
    decreases k' - k
  {
    if k < k' {
      ScheduleStops(frames, total, k, k' - 1, sigma, denoise);
    }
  }

  /**
   * The denoising loop of process_video: for i = 0 .. total-1 in order, load
   * the window at WindowStart(i, total); denoise it, or copy frame i when the
   * window is incomplete; write the result under index i. The first error
   * (a failed copy or model call) ends the loop.
   */
  method DenoiseAll(framesDir: FrameDir, enhancedDir: FrameDir, total: nat, sigma: int, denoise: Denoiser)
    returns (err: Option<Error>)
    requires framesDir != enhancedDir
    modifies enhancedDir
    ensures var p := ScheduleUpTo(framesDir.files, total, total, sigma, denoise);
      enhancedDir.files == old(enhancedDir.files) + p.written && err == p.failure
  {
    for i := 0 to total
      invariant ScheduleUpTo(framesDir.files, total, i, sigma, denoise).failure.None?
      invariant enhancedDir.files == old(enhancedDir.files) + ScheduleUpTo(framesDir.files, total, i, sigma, denoise).written
    {
      var start := WindowStart(i, total);
      var frameSequence := LoadFrames(framesDir, start, 5);
      if frameSequence.None? {
        if i !in framesDir.files {
          ScheduleStops(framesDir.files, total, i + 1, total, sigma, denoise);
          return Some(MissingFrame(i));
        }
        enhancedDir.files := enhancedDir.files[i := framesDir.files[i]];
      } else {
        var enhanced := denoise(frameSequence.value, sigma);
        if enhanced.None? {
          ScheduleStops(framesDir.files, total, i + 1, total, sigma, denoise);
          return Some(DenoiseFailed(i));
        }
        enhancedDir.files := enhancedDir.files[i := enhanced.value];
      }
    }
    return None;
  }

  /** The temporary workspace: a `frames` and an `enhanced` directory under one root. */
  class Workspace {
    var present: bool
    const frames: FrameDir
    const enhanced: FrameDir

    /** A directory that does not exist holds no files. */
    ghost predicate Valid()
      reads this, frames, enhanced
    {
      frames != enhanced && (!present ==> frames.files == map[] && enhanced.files == map[])
    }

    /** A workspace root that does not exist yet. */
    constructor ()
      ensures Valid() && !present && fresh(frames) && fresh(enhanced)
    {
      present := false;
      frames := new FrameDir();
      enhanced := new FrameDir();
    }

    /** The `finally` clause: remove the whole tree if it exists. */
    method Cleanup()
      requires Valid()
      modifies this, frames, enhanced
      ensures Valid() && !present && frames.files == map[] && enhanced.files == map[]
    {
      if present {
        frames.files := map[];
        enhanced.files := map[];
        present := false;
      }
    }
  }

  /**
   * What a run produces from the directory contents it starts with (a
   * workspace left behind by an earlier run is reused, not emptied).
   */
  ghost function Pipeline(frames0: map<nat, Frame>, enhanced0: map<nat, Frame>, source: VideoSource,
                          sigma: int, denoise: Denoiser): Result<Video, Error>
  {
    var decoded := Decoded(source.results);
    var p := ScheduleUpTo(frames0 + Store(decoded), |decoded|, |decoded|, sigma, denoise);
    if p.failure.Some? then Failure(p.failure.value)
    else Assemble(enhanced0 + p.written, source.fps)
  }

  /** The body of the `try`: extract, denoise every index, reassemble. */
  method RunStages(ws: Workspace, source: VideoSource, sigma: int, denoise: Denoiser) returns (r: Result<Video, Error>)
    requires ws.Valid()
    modifies ws, ws.frames, ws.enhanced
    ensures ws.Valid() && ws.present
    ensures var d := Decoded(source.results);
      ws.frames.files == old(ws.frames.files) + Store(d) &&
      ws.enhanced.files == old(ws.enhanced.files) + ScheduleUpTo(old(ws.frames.files) + Store(d), |d|, |d|, sigma, denoise).written
    ensures r == Pipeline(old(ws.frames.files), old(ws.enhanced.files), source, sigma, denoise)
  {
    ws.present := true;
    var fps, total := ExtractFrames(source, ws.frames);
    var err := DenoiseAll(ws.frames, ws.enhanced, total, sigma, denoise);
    if err.Some? {
      return Failure(err.value);
    }
    r := ReassembleVideo(ws.enhanced, fps);
  }

  /**
   * process_video: run the stages, then remove the workspace whatever their
   * outcome; the result is the video written or the error that ended the run.
   */
  method ProcessVideo(ws: Workspace, source: VideoSource, sigma: int, denoise: Denoiser) returns (r: Result<Video, Error>)
    requires ws.Valid()
    modifies ws, ws.frames, ws.enhanced
    ensures ws.Valid() && !ws.present && ws.frames.files == map[] && ws.enhanced.files == map[]
    ensures r == Pipeline(old(ws.frames.files), old(ws.enhanced.files), source, sigma, denoise)
  {
    r := RunStages(ws, source, sigma, denoise);
    ws.Cleanup();
  }

  /** The indices a .. b-1. */
  function Range(a: nat, b: nat): (r: set<nat>)
    ensures forall k :: k in r <==> a <= k < b
    decreases b - a
  {
    if a >= b then {} else {a} + Range(a + 1, b)
  }

  /** Listing a contiguous range of indices gives them in counting order. */
  lemma {:induction false} SortedRange(a: nat, b: nat)
    requires a <= b
    ensures SortedKeys(Range(a, b)) == seq(b - a, j => a + j)
    decreases b - a
  {
    if a < b {
      SortedKeysUnfold(Range(a, b), a);
      assert Range(a, b) - {a} == Range(a + 1, b);
      SortedRange(a + 1, b);
      assert [a] + seq(b - a - 1, j => a + 1 + j) == seq(b - a, j => a + j);
    } else {
      assert Range(a, b) == {};
    }
  }

  /** With at least five frames every window is complete: frame i is denoised from frames start .. start+4 around it. */
  lemma FullWindow(decoded: seq<Frame>, i: nat, sigma: int, denoise: Denoiser)
    requires 5 <= |decoded| && i < |decoded|
    ensures var s := WindowStart(i, |decoded|);
      Window(Store(decoded), s, 5) == Some(decoded[s..s + 5]) &&
      EnhancedFrame(Store(decoded), |decoded|, i, sigma, denoise) ==
        (match denoise(decoded[s..s + 5], sigma) case None => Failure(DenoiseFailed(i)) case Some(f) => Success(f))
  {
    var s := WindowStart(i, |decoded|);
    var files := Store(decoded);
    assert forall k :: s <= k < s + 5 ==> k in files;
    assert seq(5, j requires 0 <= j < 5 => files[s + j]) == decoded[s..s + 5];
  }

  /** With fewer than five frames no window is complete and every frame is copied through. */
  lemma ShortPassthrough(decoded: seq<Frame>, i: nat, sigma: int, denoise: Denoiser)
    requires |decoded| < 5 && i < |decoded|
    ensures Window(Store(decoded), WindowStart(i, |decoded|), 5) == None
    ensures EnhancedFrame(Store(decoded), |decoded|, i, sigma, denoise) == Success(decoded[i])
  {
    assert 4 !in Store(decoded);
  }

  /**
   * A run in a fresh workspace succeeds iff the video has a frame and every
   * index gets its enhanced frame; the output then holds exactly those frames,
   * in index order, at the source frame rate. An unreadable video fails with
   * NoFramesFound.
   */
  lemma PipelineFresh(source: VideoSource, sigma: int, denoise: Denoiser)
    ensures var decoded := Decoded(source.results);
      var r := Pipeline(map[], map[], source, sigma, denoise);
      (r.Success? <==> |decoded| > 0 && forall i :: 0 <= i < |decoded| ==> EnhancedFrame(Store(decoded), |decoded|, i, sigma, denoise).Success?) &&
      (r.Success? ==> (r.value.fps == source.fps && |r.value.frames| == |decoded| &&
         forall i :: 0 <= i < |decoded| ==> EnhancedFrame(Store(decoded), |decoded|, i, sigma, denoise) == Success(r.value.frames[i]))) &&
      (|decoded| == 0 ==> r == Failure(NoFramesFound))
  {
    var decoded := Decoded(source.results);
    var n := |decoded|;
    var frames := Store(decoded);
    assert map[] + frames == frames;
    ScheduleSpec(frames, n, n, sigma, denoise);
    var p := ScheduleUpTo(frames, n, n, sigma, denoise);
    if p.failure.None? {
      assert map[] + p.written == p.written;
      assert p.written.Keys == Range(0, n);
      SortedRange(0, n);
      if n > 0 {
        assert 0 in p.written;
      }
    }
  }

  /** A video shorter than five frames comes out exactly as it went in. */
  lemma ShortVideoUnchanged(source: VideoSource, sigma: int, denoise: Denoiser)
    requires 0 < |Decoded(source.results)| < 5
    ensures Pipeline(map[], map[], source, sigma, denoise) == Success(Video(source.fps, Decoded(source.results)))
  {
    var decoded := Decoded(source.results);
    forall i | 0 <= i < |decoded|
      ensures EnhancedFrame(Store(decoded), |decoded|, i, sigma, denoise) == Success(decoded[i])
    {
      ShortPassthrough(decoded, i, sigma, denoise);
    }
    PipelineFresh(source, sigma, denoise);
    var r := Pipeline(map[], map[], source, sigma, denoise);
    assert r.value.frames == decoded;
  }

  /** In a video of five or more frames every output frame is the model's output for its window. */
  lemma LongVideoDenoised(source: VideoSource, sigma: int, denoise: Denoiser)
    requires 5 <= |Decoded(source.results)|
    ensures var decoded := Decoded(source.results);
      var r := Pipeline(map[], map[], source, sigma, denoise);
      r.Success? ==> |r.value.frames| == |decoded| && forall i :: 0 <= i < |decoded| ==>
        denoise(decoded[WindowStart(i, |decoded|)..WindowStart(i, |decoded|) + 5], sigma) == Some(r.value.frames[i])
  {
    var decoded := Decoded(source.results);
    PipelineFresh(source, sigma, denoise);
    forall i | 0 <= i < |decoded| {
      FullWindow(decoded, i, sigma, denoise);
    }
  }

  /**
   * Enhanced frames left behind by an earlier, interrupted run are reassembled
   * too: with such leftovers, an unreadable video does not fail.
   */
  lemma LeftoverFramesMaskNoFrames(frames0: map<nat, Frame>, enhanced0: map<nat, Frame>, source: VideoSource,
                                   sigma: int, denoise: Denoiser)
    requires enhanced0 != map[] && Decoded(source.results) == []
    ensures Pipeline(frames0, enhanced0, source, sigma, denoise).Success?
  {
    assert enhanced0 + map[] == enhanced0;
  }
}
