# Verified model of the video-enhancer frame pipeline

This project models, in Dafny, the core of a batch video-denoising pipeline and
the naming logic of the job submitter that triggers it.

* **Frame store** (`FrameIO`, `FrameNames`): a video is decoded into a directory
  of `frame_NNNNN.png` files; a window of consecutive frames is loaded back, and
  the directory is listed in name order to write the output video. A directory
  is a `FrameDir` object whose `files` map a frame index to an opaque `Frame`.
  `src/frame_io.py` and lines 52-152 of `src/video_enhancer.py` hold the same
  three functions word for word; they are modelled once.
* **Window scheduler and run** (`VideoEnhancer`): for every output index `i` of
  a video of `total` frames, `process_video` picks a 5-frame window start
  (clamped at both ends), loads that window, and either hands it to the model
  or, when a frame of the window is missing, copies frame `i` through
  unchanged. The run happens in a temporary `Workspace` that is removed on
  every exit path (`try`/`finally`). The model call is the function parameter
  `denoise`; `None` from it stands for the call raising.
* **Job naming** (`LambdaFunction`): the batch job name built from the
  uploaded object's key and a timestamp, and the input/output object URIs.

The code has no explicit "fewer than five frames" branch: short videos are
copied through only because loading the window `[0, 5)` fails when frame 4
does not exist, and the model reproduces exactly that (`ShortPassthrough`).
The code has no audio handling. Consecutive interior windows share exactly four
frames (`WindowStartSlides`).

A workspace left behind by an interrupted earlier run is reused without being
emptied (`mkdir(exist_ok=True)`), so `ProcessVideo` is specified against the
directory contents it starts with (`Pipeline`). The properties of a normal run
are stated for a fresh workspace; `LeftoverFramesMaskNoFrames` shows what
leftovers do.

## Model

| member | source | states |
|---|---|---|
| `VideoEnhancer.WindowStart` | src/video_enhancer.py:183-188 | for at least five frames the window `[start, start+5)` lies inside the video and contains `i`; for fewer than five frames the start is always 0 |
| `VideoEnhancer.WindowStartSlides` | src/video_enhancer.py:183-188 | the window of index `i+1` starts where that of `i` does or one frame later, and exactly one frame later between interior indices |
| `VideoEnhancer.EnhancedFrameCases` | src/video_enhancer.py:190-200 | the model's output for the clamped window when all five of its frames exist; otherwise a copy of frame `i`, or `MissingFrame(i)` when frame `i` is absent; `DenoiseFailed(i)` when the model call raises; no other error |
| `VideoEnhancer.ScheduleSpec` | src/video_enhancer.py:181-202 | the loop writes, for each index below `k`, exactly its enhanced frame and no other index; it completes iff every index succeeds, else stops at the first failing index with exactly the earlier indices written |
| `VideoEnhancer.DenoiseAll` | src/video_enhancer.py:181-202 | the enhanced directory becomes its old contents plus the frames the schedule writes for `0 .. total-1`; the error returned is the one that stopped it |
| `VideoEnhancer.FullWindow` | src/video_enhancer.py:183-200 | with at least five frames every window loads as the five consecutive frames from its start, and output frame `i` is the model's output for them |
| `VideoEnhancer.ShortPassthrough` | src/video_enhancer.py:183-195 | with fewer than five frames the window load fails and output frame `i` is input frame `i`, bit for bit |
| `VideoEnhancer.Workspace.Cleanup` | src/video_enhancer.py:209-212 | afterwards the workspace does not exist and holds no frame files |
| `VideoEnhancer.RunStages` | src/video_enhancer.py:174-207 | extraction, denoising and reassembly in order; afterwards the frames directory is its old contents plus the decoded frames under `0 .. N-1`, the enhanced directory its old contents plus what the denoising loop wrote; the result is `Pipeline` of the starting directory contents |
| `VideoEnhancer.ProcessVideo` | src/video_enhancer.py:155-212 | whatever the outcome, the workspace is gone afterwards; the result is `Pipeline` of the starting directory contents |
| `VideoEnhancer.PipelineFresh` | src/video_enhancer.py:174-207 | in a fresh workspace the run succeeds iff the video has a frame and every index is enhanced; the output then has exactly one frame per input frame, in index order, at the source rate; an unreadable video fails with `NoFramesFound` |
| `VideoEnhancer.ShortVideoUnchanged` | src/video_enhancer.py:181-205 | a video of one to four frames comes out as exactly its input frames |
| `VideoEnhancer.LongVideoDenoised` | src/video_enhancer.py:190-200 | in a video of five or more frames every output frame is the model's output for its clamped window |
| `VideoEnhancer.LeftoverFramesMaskNoFrames` | src/video_enhancer.py:137-177 | with enhanced frames left from an earlier run, an unreadable video no longer fails |
| `VideoEnhancer.SortedRange` | src/frame_io.py:53 | listing the indices `a .. b-1` gives them in counting order |
| `FrameIO.Decoded` | src/frame_io.py:17-30 | the frames read before the first failed read: each is what its read returned, and the read after them failed |
| `FrameIO.ExtractFrames` | src/frame_io.py:6-30 | returns the container's frame rate and the number of successful reads (not the reported count); the directory gains exactly those frames under `0 .. count-1` |
| `FrameIO.LoadFrames` | src/frame_io.py:33-47 | `None` iff some index of `[start, start+num)` is missing; otherwise exactly `num` frames, the `j`-th being the one stored at `start+j` |
| `FrameIO.SortedKeysSpec` | src/frame_io.py:53 | the sorted listing holds every stored index exactly once, strictly ascending |
| `FrameIO.SortedIndices` | src/frame_io.py:53 | returns the stored indices strictly ascending, each exactly once: the listing `SortedKeys` describes |
| `FrameIO.ReassembleVideo` | src/frame_io.py:50-68 | fails with `NoFramesFound` iff the directory is empty; otherwise writes every stored frame exactly once, in listing order, at the given rate |
| `FrameNames.Pad5Spec` | src/frame_io.py:24 | the decimal form of the index, preceded by zeros up to width 5; longer forms are kept whole |
| `FrameNames.FrameNameInjective` | src/frame_io.py:24 | distinct frame indices get distinct file names, with no upper bound, so a frame directory keyed by index loses nothing |
| `FrameNames.FrameNameLength` | src/frame_io.py:24 | below 100000 every frame name has the same length, 15 |
| `FrameNames.FrameNameOrder` | src/frame_io.py:24 | below 100000, one frame name sorts before another iff its index is smaller |
| `FrameNames.FrameNameCeiling` | src/frame_io.py:24 | at 100000 the correspondence breaks: frame 100000 sorts before frame 99999 |
| `LambdaFunction.LastSegment` | tf/modules/lambda/lambda_code/lambda_function.py:25 | the longest suffix of the key without `/`: preceded by `/` unless it is the whole key |
| `LambdaFunction.DropExtension` | tf/modules/lambda/lambda_code/lambda_function.py:25 | with no `.` the segment is kept whole; otherwise the part before its last `.` |
| `LambdaFunction.Truncate` | tf/modules/lambda/lambda_code/lambda_function.py:26 | a prefix of at most `n` characters, the whole string if it fits |
| `LambdaFunction.Sanitize` | tf/modules/lambda/lambda_code/lambda_function.py:27 | same length; allowed characters kept in place, every other one replaced by `-`; every result character allowed |
| `LambdaFunction.SanitizeKeepsValid` | tf/modules/lambda/lambda_code/lambda_function.py:27 | a string of allowed characters is unchanged |
| `LambdaFunction.SanitizeIdempotent` | tf/modules/lambda/lambda_code/lambda_function.py:27 | sanitizing twice equals sanitizing once |
| `LambdaFunction.GenerateJobName` | tf/modules/lambda/lambda_code/lambda_function.py:23-27 | at most 128 characters, all alphanumeric, `-` or `_`; exactly 128 when the unsanitized name is longer |
| `LambdaFunction.JobNameHasPrefix` | tf/modules/lambda/lambda_code/lambda_function.py:26-27 | every job name starts with `video-enhance-` |
| `LambdaFunction.JobNameExact` | tf/modules/lambda/lambda_code/lambda_function.py:23-27 | when base name and timestamp are made of allowed characters and fit, the name is exactly prefix, base name, `-`, timestamp |
| `LambdaFunction.FindFrom` | tf/modules/lambda/lambda_code/lambda_function.py:32 | the first position from `start` on where the pattern occurs, or -1 when there is none |
| `LambdaFunction.ReplaceFirst` | tf/modules/lambda/lambda_code/lambda_function.py:32 | only the first occurrence is replaced; with none, the string is unchanged |
| `LambdaFunction.CreateS3Paths` | tf/modules/lambda/lambda_code/lambda_function.py:30-34 | input URI is `s3://bucket/key`; output URI has the first `input/` of the key turned into `output/`, and equals the input URI when the key has none |
| `LambdaFunction.OutputUnderOutputPrefix` | tf/modules/lambda/lambda_code/lambda_function.py:30-34 | a key `input/rest` gets the output URI `s3://bucket/output/rest` |

## Left out

- ReassembleVideo: writes frames in ascending index order; the code sorts file names, which agree with index order only below 100000 frames (`FrameNameOrder`, `FrameNameCeiling`), so a longer video's frame order is not modelled.
- The model itself (`load_model`, `denoise_frames` in src/video_enhancer.py:13-131, src/denoiser.py): tensors, normalisation, device choice. It is the opaque parameter `denoise`.
- Pixel work: image decode and encode, colour-order conversion, the video codec, frame dimensions. Frames are opaque values and the frame rate is carried through unchanged.
- Image files that exist but cannot be decoded, and image writes that fail silently: every stored frame is readable and every write succeeds.
- Files in a frame directory other than `frame_NNNNN.png` under a non-negative index.
- Progress bars and printed messages.
- The clock: `GenerateJobName` takes the already formatted timestamp as a parameter.
- Python's `str.isalnum`: passed in as the parameter `isAlnum`; `JobNameHasPrefix` and `JobNameExact` assume only that it accepts ASCII letters and digits.
- src/s3_utils.py, src/video_processor.py, src/video_processor_batch.py: storage transfer, notifications and command-line wiring around `process_video`.
- `lambda_handler`, `submit_batch_job`, `parse_s3_event`: environment lookups, event parsing, URL unquoting and the job-queue call.
- A process killed mid-run skips the cleanup; the model covers this only through the starting contents of the workspace.
