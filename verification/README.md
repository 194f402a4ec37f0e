# camloop, modelled in Dafny

This project models the core of `camloop`, a Python decorator that runs a user's per-frame function inside a webcam loop. The loop reads a frame and optionally mirrors it. It then paints the still-active timed overlays and calls the user function. When a user function is given and the output directory validated (it exists), it buffers the result. Finally it shows the frame and acts on one key press. When an output directory validated, the screenshot key saves a JPEG and registers a three-second "Screenshot saved at" caption; without one, that key falls through to the exit-key comparison. The exit key releases the camera and windows and, when both a format and an output directory validated, exports the buffered frames as a GIF or MP4.

The model is functional. Frames have an opaque type `F`. Each OpenCV, imageio or filesystem call is either a collaborator function passed in (`Loop.Collaborators`) or an `Effect` recorded in the order the loop performs it. Time and key presses are inputs. `Loop.Tick` is one pass of the `while True` loop. `Loop.Run` folds ticks over a sequence of `Event`s. `Loop.Camloop` is the whole wrapper: initialisation followed by the loop.

Modules, one per file:

- `Options` (`options.dfy`): `Option` for Python's `None`-or-value and `Result` for a value or a raised exception.
- `Formats` (`formats.dfy`): `validate_sequence_format`. Python `lower()` is modelled on ASCII, and `lstrip(".")` becomes `StripLeadingDots`.
- `Paths` (`paths.dfy`): `validate_output_path`, with `Path.resolve` and `Path.exists` passed in as functions.
- `Overlays` (`overlays.dfy`): `TimedFunction` (`Apply` is `__call__`, `Expired` is `expired`), the pruning comprehension (`Prune`), the application loop (`ApplyStages`), and the screenshot caption overlay.
- `Export` (`export.dfy`): `export_sequence` up to the encoder call. It covers the GIF/MP4 branch, explicit versus derived timing, and the exceptions raised before an encoder is reached.
- `Loop` (`loop.dfy`): configuration defaults, initialisation, the tick, the exit branch, runs over event sequences, and the wrapper.

Instants are integers in microseconds, the resolution of `datetime`. The caption lifetime `timedelta(seconds=3)` is `3 * Second`. The running time passed to the exporter is `Elapsed(start, now)` in seconds.

Behaviours of the code worth knowing:

- A failed read raises inside the `try` block. The same `except Exception` handler catches it, prints it and releases the resources. The failure is therefore not re-raised to the caller (`StopReason.ReadFailed`).
- Whether a frame is buffered depends on the user function being present and the output directory being valid. The export format plays no part (`camloop.py:124-127`), so frames are buffered even when no export will happen.
- Exporting zero frames does not return quietly. A GIF without `fps` divides by zero. An MP4 divides by zero when `fps` is absent and the running time is 0, and otherwise indexes an empty list. Either way the handler catches the exception and releases the resources a second time (`Loop.Exit`, `ExportRaised`). For the same reason, release happens twice on that path rather than exactly once.
- Opening the capture does not fail by itself. An unavailable source shows up as a failed first read.
- Frames without a three-part shape (grayscale frames) make the MP4 branch fail when it unpacks `shape`. The GIF branch fails too, because the BGR-to-RGB conversion rejects them. Both are modelled as `ExportError`s (`UnpackFailed`, `ConversionFailed`).

## Model

| member | source | states |
|---|---|---|
| Formats.LowerChar | src/camloop/camloop.py:64 | the result is never an upper-case ASCII letter; upper-case letters map to the code point 32 higher and every other character is kept |
| Formats.Lower | src/camloop/camloop.py:64 | lower-casing keeps the length, leaves no upper-case ASCII letter, and changes only the upper-case letters |
| Formats.StripLeadingDots | src/camloop/camloop.py:64 | `lstrip(".")` returns a suffix of its input that is empty or starts with a non-dot, and everything it removed is dots |
| Formats.StripExactPrefix | src/camloop/camloop.py:64 | a dot prefix followed by a non-dot (or by nothing) is removed exactly |
| Formats.LowerThenStrip | src/camloop/camloop.py:64 | lower-casing then stripping dots is the same as stripping dots then lower-casing |
| Formats.ValidateSequenceFormat | src/camloop/camloop.py:59-71 | `None` maps to `None`; any other result is one of the supported formats "gif" and "mp4" |
| Formats.DotsThenWordIsValidated | src/camloop/camloop.py:59-71 | any number of dots followed by "gif" or "mp4" in any letter case (e.g. "..MP4") validates to that lower-case name |
| Formats.ValidateSequenceFormatSpec | src/camloop/camloop.py:59-71 | both directions: validation yields `f` exactly when `f` is supported and the input is dots followed by `f` in some letter case |
| Formats.ValidateSequenceFormatIdempotent | src/camloop/camloop.py:59-71 | validating twice gives the same result as validating once |
| Paths.ValidateOutputPath | src/camloop/camloop.py:74-85 | `None` stays `None`; a result is the resolved form of the input and exists; an existing resolved path is never rejected |
| Paths.ValidateOutputPathIdempotent | src/camloop/camloop.py:74-85 | when resolving is idempotent, validating a validated directory changes nothing |
| Overlays.Apply | src/camloop/camloop.py:19-20 | definition: calling a stage runs its function on the frame followed by its bound arguments; its use is stated in ApplyStagesLast and ScreenshotOverlayLifetime |
| Overlays.Expired | src/camloop/camloop.py:22-23 | definition: a stage has expired once the clock is strictly past its expiry instant; its properties are in Prune, PruneLater and ScreenshotOverlayLifetime |
| Overlays.Prune | src/camloop/camloop.py:117-119 | after pruning at `now`, every survivor satisfies `now <= expiresAt` (expiry is strict), no unexpired stage is dropped, and the survivors are a subsequence of the old list, so their order is kept |
| Overlays.PruneCounts | src/camloop/camloop.py:117-119 | every unexpired stage keeps all its occurrences and every expired one loses all of them, so pruning neither duplicates nor merges stages |
| Overlays.PruneAppend | src/camloop/camloop.py:117-119 | pruning distributes over concatenation, so a stage appended at the end is still last after pruning as long as it has not expired |
| Overlays.PruneKeepsUnexpired | src/camloop/camloop.py:117-119 | a list with nothing expired is left unchanged |
| Overlays.PruneLater | src/camloop/camloop.py:22-23 | pruning at one instant and then at a later one equals pruning once at the later one; in particular pruning is idempotent |
| Overlays.ApplyStages | src/camloop/camloop.py:120-121 | definition: the stages are applied one after another, oldest first, each to the previous one's output; its properties are in ApplyStagesAppend and ApplyStagesLast |
| Overlays.ApplyStagesAppend | src/camloop/camloop.py:120-121 | applying stages is a left fold: folding `a + b` folds `a` first, then `b` over its output |
| Overlays.ApplyStagesLast | src/camloop/camloop.py:120-121 | a stage appended at the end is applied last, over the output of all older stages |
| Overlays.ScreenshotOverlay | src/camloop/camloop.py:143-147 | definition: the caption stage paints the saved file's path and expires three seconds after it is registered; its properties are in ScreenshotOverlayLifetime and Loop.Tick |
| Overlays.ScreenshotOverlayLifetime | src/camloop/camloop.py:143-148 | a caption registered at `t` is painted last on every frame processed at any `now <= t + 3 s`, including exactly `t + 3 s`, while no newer stage was registered after it, and it is painted on no frame after `t + 3 s` |
| Export.ConvertAll | src/camloop/camloop.py:40 | the GIF colour conversion succeeds exactly when every frame converts, and then yields the converted frames in order |
| Export.ExportSequence | src/camloop/camloop.py:38-56 | an explicit fps is passed on unchanged; without one, a GIF gets per-frame duration × frame count = running time and an MP4 gets fps × running time = frame count; a GIF fails exactly when a frame does not convert (with `ConversionFailed`) or, without an fps, the sequence is empty; an MP4 fails exactly when the sequence is empty, the running time is zero for a derived rate, or the first frame does not unpack (with `UnpackFailed`); MP4 writes all frames in order, sized like the first frame |
| Loop.Elapsed | src/camloop/camloop.py:153 | definition: the running time handed to the exporter is the time since the start instant, in seconds; its use is stated in Loop.Exit and Loop.RunExportsShownFrames |
| Loop.Preprocess | src/camloop/camloop.py:114-121 | definition: the frame is mirrored when configured, then painted by the overlays still active at the tick's instant, oldest first; its properties are in Overlays.ScreenshotOverlayLifetime and Loop.MirrorScenario |
| Loop.Transform | src/camloop/camloop.py:124-125 | definition: the user function is called on the preprocessed frame, and without one the frame passes through; its effect on the loop is stated in Loop.Tick |
| Loop.TakesScreenshot | src/camloop/camloop.py:135-138 | definition: the key acts as the screenshot key when it matches and an output directory validated; its properties are in Loop.Tick and Loop.KeyDispatch |
| Loop.TakesExit | src/camloop/camloop.py:135-152 | definition: the key acts as the exit key when it matches and the screenshot branch did not take it first; its properties are in Loop.Tick and Loop.KeyDispatch |
| Loop.Initialize | src/camloop/camloop.py:92-108 | the source is opened first, the resolution override sets height then width, and the start instant is recorded; the setup keeps exactly what `validate_output_path` and `validate_sequence_format` return, so its directory exists and its format is supported; the loop starts with no overlays and no frames |
| Loop.Exit | src/camloop/camloop.py:152-174 | on the exit branch, release comes first; an export happens only when both format and directory are set, and then comes after the release; without both, or for a format naming neither container, the loop just releases and stops; an export error ends the loop through the handler's second release |
| Loop.Dispatch | src/camloop/camloop.py:129-174 | after the transform, the frame is shown; the screenshot key (checked first) saves that frame and appends one caption, the exit key hands the buffer to the exit branch after showing, and any other key just shows |
| Loop.Tick | src/camloop/camloop.py:111-181 | a failed read or a raising transform stops the loop with release; the loop continues exactly when the key does not act as the exit key; it shows exactly the transformed frame and buffers it iff there is a user function and a directory; surviving overlays keep their order and are all active; a screenshot (checked before exit) adds one caption expiring `now + 3 s` at the end, and its effects are exactly the show followed by one save of the shown frame; the exit key shows the frame, buffers it like any other, and stops with the reason and effects of the exit branch on that buffer |
| Loop.KeyDispatch | src/camloop/camloop.py:133-152 | outside the screenshot branch only the comparison with the exit key matters, so a screenshot key with no directory falls through to the exit comparison |
| Loop.Run | src/camloop/camloop.py:110-181 | a run consumes at most one event per tick and every event while running; a stopped run ran at least one tick; at most one frame is shown per tick |
| Loop.RunReleasesOnlyAtStop | src/camloop/camloop.py:150-181 | resources are released in a run exactly when the run has stopped, on every modelled exit path |
| Loop.RunStopIsFinal | src/camloop/camloop.py:110-174 | once a run has stopped, appending further events changes nothing: the loop never resumes after the tick it stopped on |
| Loop.RunKeepsOnlyActiveOverlays | src/camloop/camloop.py:117-121 | while the loop runs, every overlay it keeps is active at the last tick's instant |
| Loop.RunBuffersShownFrames | src/camloop/camloop.py:124-130 | the buffer grows by exactly the shown frames, in tick order, when there is a user function and a directory, and not at all otherwise |
| Loop.RunIgnoresFormat | src/camloop/camloop.py:124-127 | while the loop runs, changing the export format changes nothing: it is read only on the exit branch |
| Loop.RunExitsWithShownFrames | src/camloop/camloop.py:124-174 | with a user function and a directory, a run that leaves through the exit branch hands it the frames already buffered followed by every frame the run showed, in order, at the last tick's instant; the run's reason and last effects are the exit branch's |
| Loop.RunExportsShownFrames | src/camloop/camloop.py:124-174 | with a user function, a directory and a format, a run stopped by the exit key or an export error exports exactly the shown frames (colour-converted for a GIF, by Export.ExportSequence) with the running time at the last tick; a successful export ends on the exit key with release followed by the file write, and an export error ends with two releases |
| Loop.RunWithoutFormatExportsNothing | src/camloop/camloop.py:157-172 | with no validated format, a run never writes a sequence and never fails to export |
| Loop.RunWithoutOutputWritesNothing | src/camloop/camloop.py:126-160 | with no valid output directory, no screenshot or sequence is written, no export error occurs, and the buffer stays as it was |
| Loop.MirrorScenario | src/camloop/camloop.py:110-174 | with mirroring, no export format, a pass-through transform, no key the screenshot branch takes, and the exit key on the last of N successful reads, whether or not an output directory validated, the loop runs N ticks, shows each input mirrored in order, and stops on the exit key with resources released |
| Loop.Camloop | src/camloop/camloop.py:88-185 | the wrapper opens the source first, consumes at most one event per tick, and releases resources exactly when the loop has stopped, on every modelled exit path |
| Loop.DefaultConfigNeverExports | src/camloop/camloop.py:93-171 | with every option at the value `config.get` falls back to (no format among them), the wrapper never writes a sequence and never fails to export; given a user function and an existing current directory it still buffers every frame it shows |

## Left out

- OpenCV and imageio calls (capture, flip, putText, cvtColor, imshow, waitKey, imwrite, VideoWriter, mimsave) are foreign library calls. Frames are opaque, the pixel-level transforms are collaborator functions, and the encoders appear only as the `Effect`s `WriteImage` and `WriteSequence`.
- Encoder-side failures (imageio or the video writer refusing the data, for instance an empty GIF with an explicit fps) are foreign behaviour and are not modelled.
- Filesystem paths: resolving, existence, joining and ISO-timestamp file names are I/O. They appear as the collaborators `resolve`, `isPresent`, `screenshotPath` and `exportPath`.
- Clocks: `camloop.py` reads `datetime.now()` separately for each stage's expiry check, for the screenshot file name and for its expiry, and `time.time()` for the running time. The model uses one instant per tick for all of them.
- Floating point: fps, durations and the running time are `real`s, so rounding in `len/duration` and `duration/len` is not modelled.
- Unicode case mapping: `Formats.Lower` lower-cases ASCII letters only; Python's `str.lower` also maps other scripts.
- The configuration dictionary is represented by the `Config` record. `Loop.DefaultConfig` gives the values `dict.get` falls back to.
- The configuration is modelled as fixed at start. `camloop.py` reads `source`, `resolution`, `output` and `sequence_format` once (`camloop.py:93-105`), but re-reads `mirror` (`camloop.py:114`), both keys (`camloop.py:136`, `camloop.py:152`) and `fps` (`camloop.py:171`) from the live dictionary on every pass. Code that holds the dictionary, such as a user function closing over it, can change them while the loop runs. `Loop.Tick`, `Loop.Run` and the lemmas about runs describe `camloop.py` only when nothing changes the dictionary during a run.
- Extra positional and keyword arguments of the user function are bound inside the function value passed as `user`.
- Logging and traceback printing.
- Buffered frames are modelled as immutable snapshots. In `camloop.py` the buffer holds references to the arrays the user function returns (`camloop.py:127`), so the exported frames equal the shown ones only if the user function does not keep a returned array and change it later; `Loop.RunBuffersShownFrames`, `Loop.RunExitsWithShownFrames` and `Loop.RunExportsShownFrames` hold under that condition.
- Exceptions from foreign calls inside the loop: `cv2.flip`, `putText` in an overlay, `imshow` on a `None` returned by the user function, and `ord()` on a configured key that is not one character (`camloop.py:136`, `camloop.py:152`) all reach the handler at `camloop.py:178-181` and release. In the model `flip`, `paint` and `Show` are total and keys are `char`s, so these paths do not exist; only a failed read, a raising user function and a raising export reach the handler.
- Exceptions outside `Exception`: the handler catches `Exception` only, so `KeyboardInterrupt` and other `BaseException`s leave the loop without a release. The model has no such exceptions.
- Errors during set-up (`camloop.py:93-105`): opening the capture, setting the resolution and the two validations run before the `try`, so an exception there leaves with the capture opened and never released. `Loop.Initialize` is total.
- `demo.py` (command-line parsing and three demo transforms) and `setup.py` (packaging) are not part of this model.
