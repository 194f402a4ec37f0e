/** The body of the `camloop` wrapper as a state machine. One call of `Tick`
    is one pass of the `while True` loop: read, mirror, prune and apply the
    timed overlays, call the user transform, buffer, show, and act on the
    key. Frames are an opaque type `F`; every OpenCV, imageio and filesystem
    call is either a collaborator function or an `Effect` the tick emits. */
module Loop {
  import opened Options
  import opened Overlays
  import Formats
  import Paths
  import Export

  /** The capture source: a device index or a stream identifier. */
  datatype Source = Device(index: int) | Stream(uri: string)

  /** The options the loop reads from its configuration dictionary. */
  datatype Config = Config(
    source: Source,
    resolution: Option<(int, int)>,   // (height, width) override
    mirror: bool,
    output: Option<string>,
    sequenceFormat: Option<string>,
    fps: Option<real>,
    screenshotKey: char,
    exitKey: char)

  /** The value each option takes when the dictionary does not mention it. */
  function DefaultConfig(): Config {
    Config(Device(0), None, false, Some("."), None, None, 's', 'q')
  }

  /** The foreign calls the loop makes, as functions of their inputs. */
  datatype Collaborators<!F> = Collaborators(
    flip: F -> F,                                  // horizontal mirror
    paint: (F, string) -> F,                       // the "Screenshot saved at" caption
    screenshotPath: (string, Instant) -> string,   // <output>/<timestamp>.jpg
    exportPath: (string, Instant, string) -> string, // <output>/<timestamp>.<format>
    toRgb: F -> Option<F>,                         // BGR to RGB; None when it raises
    shape: F -> seq<int>,                          // the frame's array shape
    resolve: string -> string,                     // absolute form of a path
    isPresent: string -> bool)                     // whether a path exists

  /** What the user transform did with a frame. */
  datatype Call<F> = Returned(frame: F) | Raised

  /** The validated settings fixed before the first tick. */
  datatype Setup = Setup(outputPath: Option<string>, format: Option<string>, startTime: Instant)

  /** The loop's mutable state: the timed overlays and the buffered frames. */
  datatype LoopState<!F> = LoopState(stages: seq<TimedFunction<F, string>>, frames: seq<F>)

  /** The externally visible actions, in the order the loop performs them.
      `Release` stands for releasing the capture and destroying the windows. */
  datatype Effect<F> =
    | OpenSource(source: Source)
    | SetFrameHeight(height: int)
    | SetFrameWidth(width: int)
    | Show(frame: F)
    | WriteImage(path: string, image: F)
    | Release
    | WriteSequence(path: string, encoding: Export.Encoding<F>)

  /** Why the loop ended. Every reason ends the loop without an exception
      reaching the caller. */
  datatype StopReason = ExitKey | ReadFailed | TransformRaised | ExportRaised(error: Export.ExportError)

  /** The result of one tick. */
  datatype Step<!F> =
    | Continue(state: LoopState<F>, effects: seq<Effect<F>>)
    | Stop(reason: StopReason, effects: seq<Effect<F>>)

  /** One pass of the loop's inputs: the read's result, the key code the
      poll returned (-1 when none), and the wall-clock instant. */
  datatype Event<F> = Event(read: Option<F>, key: int, now: Instant)

  datatype Outcome<!F> = Running(state: LoopState<F>) | Stopped(reason: StopReason)

  /** The outcome of a sequence of ticks, everything they did, and how many
      ticks ran. */
  datatype Trace<!F> = Trace(outcome: Outcome<F>, effects: seq<Effect<F>>, ticks: nat)

  /** The start of the loop, before the first tick. */
  datatype Start<!F> = Start(setup: Setup, effects: seq<Effect<F>>, state: LoopState<F>)

  /** The frames shown by a list of effects, in order. */
  function ShownFrames<F>(effects: seq<Effect<F>>): seq<F> {
    if |effects| == 0 then []
    else (if effects[0].Show? then [effects[0].frame] else []) + ShownFrames(effects[1..])
  }

  /** Running time in seconds between two instants. */
  function Elapsed(start: Instant, now: Instant): real {
    (now - start) as real / Second as real
  }

  /** The frame handed to the user transform: mirrored if configured, then
      painted by every overlay still active at `now`, oldest first. */
  function Preprocess<F>(cfg: Config, env: Collaborators<F>, stages: seq<TimedFunction<F, string>>,
                         raw: F, now: Instant): F
  {
    ApplyStages(Prune(stages, now), if cfg.mirror then env.flip(raw) else raw)
  }

  /** Calling the user transform, or passing the frame through when there is none. */
  function Transform<F>(user: Option<F -> Call<F>>, frame: F): Call<F> {
    match user
    case None => Returned(frame)
    case Some(f) => f(frame)
  }

  /** What the user transform makes of a frame read at `now`: the frame is
      preprocessed with the loop's overlays, then transformed. */
  function UserCall<F>(cfg: Config, env: Collaborators<F>, user: Option<F -> Call<F>>, st: LoopState<F>,
                       raw: F, now: Instant): Call<F>
  {
    Transform(user, Preprocess(cfg, env, st.stages, raw, now))
  }

  /** The key is acted on as the screenshot key. */
  predicate TakesScreenshot(cfg: Config, setup: Setup, key: int) {
    key == cfg.screenshotKey as int && setup.outputPath.Some?
  }

  /** The key is acted on as the exit key: it matches, and the screenshot
      branch did not take it first. */
  predicate TakesExit(cfg: Config, setup: Setup, key: int) {
    !TakesScreenshot(cfg, setup, key) && key == cfg.exitKey as int
  }

  /** Opening the source, the optional resolution override, the start
      instant, and the two validations. */
  function Initialize<F>(cfg: Config, env: Collaborators<F>, now: Instant): (r: Start<F>)
    ensures |r.effects| > 0 && r.effects[0] == OpenSource(cfg.source)
    ensures cfg.resolution.None? ==> |r.effects| == 1
    ensures cfg.resolution.Some? ==>
      r.effects[1..] == [SetFrameHeight(cfg.resolution.value.0), SetFrameWidth(cfg.resolution.value.1)]
    ensures Release !in r.effects && ShownFrames(r.effects) == []
    ensures r.setup.startTime == now
    ensures r.setup.outputPath.Some? ==> env.isPresent(r.setup.outputPath.value)
    ensures r.setup.format.Some? ==> r.setup.format.value in Formats.SupportedFormats
    ensures cfg.output.None? ==> r.setup.outputPath.None?
    ensures cfg.sequenceFormat.None? ==> r.setup.format.None?
    ensures r.setup.outputPath == Paths.ValidateOutputPath(cfg.output, env.resolve, env.isPresent)
    ensures r.setup.format == Formats.ValidateSequenceFormat(cfg.sequenceFormat)
    ensures r.state == LoopState([], [])
  {
    var open := [OpenSource(cfg.source)];
    var override := match cfg.resolution
      case None => []
      case Some(hw) => [SetFrameHeight(hw.0), SetFrameWidth(hw.1)];
    var setup := Setup(Paths.ValidateOutputPath(cfg.output, env.resolve, env.isPresent),
                       Formats.ValidateSequenceFormat(cfg.sequenceFormat), now);
    assert ShownFrames(override) == [] by {
      if cfg.resolution.Some? {
        ShownFramesPair<F>(SetFrameHeight(cfg.resolution.value.0), SetFrameWidth(cfg.resolution.value.1));
      }
    }
    assert ShownFrames(open + override) == ShownFrames(override) by {
      assert (open + override)[1..] == override;
    }
    Start(setup, open + override, LoopState([], []))
  }

  /** The exit branch: release first, then export when both a format and a
      directory were validated. An exception from the export reaches the
      cleanup handler, which releases a second time. */
  function Exit<F>(cfg: Config, setup: Setup, env: Collaborators<F>, frames: seq<F>, now: Instant): (r: Step<F>)
    ensures r.Stop? && |r.effects| > 0 && r.effects[0] == Release
    ensures r.reason.ExitKey? || r.reason.ExportRaised?
    ensures ShownFrames(r.effects) == []
    ensures (exists i :: 0 <= i < |r.effects| && r.effects[i].WriteSequence?) ==>
      setup.format.Some? && setup.outputPath.Some? && r.reason == ExitKey
    ensures setup.format.None? || setup.outputPath.None? ==> r == Stop(ExitKey, [Release])
    ensures setup.format.Some? && setup.outputPath.Some? ==>
      match Export.ExportSequence(frames, setup.format.value, Elapsed(setup.startTime, now), cfg.fps, env.toRgb, env.shape)
      case Ok(enc) =>
        && r.reason == ExitKey
        && (enc.NoFile? ==> r == Stop(ExitKey, [Release]))
        && (enc.NoFile? || r.effects == [Release, WriteSequence(env.exportPath(setup.outputPath.value, now, setup.format.value), enc)])
      case Err(e) => r == Stop(ExportRaised(e), [Release, Release])
  {
    if setup.format.Some? && setup.outputPath.Some? then
      var path := env.exportPath(setup.outputPath.value, now, setup.format.value);
      match Export.ExportSequence(frames, setup.format.value, Elapsed(setup.startTime, now), cfg.fps, env.toRgb, env.shape)
      case Ok(enc) =>
        if enc.NoFile? then Stop(ExitKey, [Release])
        else
          ShownFramesPair(Release, WriteSequence(path, enc));
          Stop(ExitKey, [Release, WriteSequence(path, enc)])
      case Err(e) =>
        var cleanup: seq<Effect<F>> := [Release, Release];
        ShownFramesPair<F>(Release, Release);
        Stop(ExportRaised(e), cleanup)
    else
      Stop(ExitKey, [Release])
  }

  /** The rest of a pass once the user transform returned `frame`: show it,
      then act on the key. `active` are the overlays that survived pruning
      and `frames` the buffer, already holding `frame` if it is buffered. */
  function Dispatch<F>(cfg: Config, setup: Setup, env: Collaborators<F>, active: seq<TimedFunction<F, string>>,
                       frames: seq<F>, frame: F, key: int, now: Instant): (r: Step<F>)
    ensures r.Continue? <==> !TakesExit(cfg, setup, key)
    ensures r.Continue? ==> ShownFrames(r.effects) == [frame] && r.state.frames == frames && Release !in r.effects
    ensures r.Continue? ==>
      && |active| <= |r.state.stages| <= |active| + 1
      && r.state.stages[..|active|] == active
      && forall i :: |active| <= i < |r.state.stages| ==> !Expired(r.state.stages[i], now)
    ensures r.Continue? && TakesScreenshot(cfg, setup, key) ==>
      var path := env.screenshotPath(setup.outputPath.value, now);
      && |r.state.stages| == |active| + 1
      && r.state.stages[|active|] == ScreenshotOverlay(env.paint, path, now)
      && r.effects == [Show(frame), WriteImage(path, frame)]
    ensures r.Continue? && !TakesScreenshot(cfg, setup, key) ==>
      r.state.stages == active && r.effects == [Show(frame)]
    ensures TakesExit(cfg, setup, key) ==>
      var exit := Exit(cfg, setup, env, frames, now);
      r == Stop(exit.reason, [Show(frame)] + exit.effects)
  {
    if TakesScreenshot(cfg, setup, key) then
      var path := env.screenshotPath(setup.outputPath.value, now);
      ShownFramesPair(Show(frame), WriteImage(path, frame));
      assert (active + [ScreenshotOverlay(env.paint, path, now)])[..|active|] == active;
      Continue(LoopState(active + [ScreenshotOverlay(env.paint, path, now)], frames),
               [Show(frame), WriteImage(path, frame)])
    else if key == cfg.exitKey as int then
      var exit := Exit(cfg, setup, env, frames, now);
      Stop(exit.reason, [Show(frame)] + exit.effects)
    else
      assert active[..|active|] == active;
      ShownFramesPair(Show(frame), Release);
      Continue(LoopState(active, frames), [Show(frame)])
  }

  /** One pass of the loop. */
  function Tick<F>(cfg: Config, setup: Setup, env: Collaborators<F>, user: Option<F -> Call<F>>,
                   st: LoopState<F>, read: Option<F>, key: int, now: Instant): (r: Step<F>)
    // A failed read ends the loop through the cleanup handler.
    ensures read.None? ==> r == Stop(ReadFailed, [Release])
    // A raising user transform ends it the same way, before anything is shown.
    ensures read.Some? && UserCall(cfg, env, user, st, read.value, now).Raised? ==>
      r == Stop(TransformRaised, [Release])
    // The loop goes on exactly when a frame was read and transformed and the
    // key did not act as the exit key; every way out releases the resources,
    // and a continuing tick never does.
    ensures r.Continue? <==>
      read.Some? && UserCall(cfg, env, user, st, read.value, now).Returned?
      && !TakesExit(cfg, setup, key)
    ensures r.Stop? ==> Release in r.effects
    ensures r.Continue? ==> Release !in r.effects
    // A tick shows exactly the transformed frame, and buffers it exactly
    // when there is a user transform and an output directory.
    ensures r.Continue? ==>
      var shown := UserCall(cfg, env, user, st, read.value, now).frame;
      && ShownFrames(r.effects) == [shown]
      && r.state.frames == st.frames + (if user.Some? && setup.outputPath.Some? then [shown] else [])
    // The registry keeps its surviving stages in order, only unexpired ones,
    // and gains at most the new caption, at the end.
    ensures r.Continue? ==>
      && |Prune(st.stages, now)| <= |r.state.stages| <= |Prune(st.stages, now)| + 1
      && r.state.stages[..|Prune(st.stages, now)|] == Prune(st.stages, now)
      && forall i :: 0 <= i < |r.state.stages| ==> !Expired(r.state.stages[i], now)
    // A screenshot saves the shown frame and registers a caption that
    // expires three seconds later; no other key changes the registry.
    ensures r.Continue? && TakesScreenshot(cfg, setup, key) ==>
      var path := env.screenshotPath(setup.outputPath.value, now);
      var shown := UserCall(cfg, env, user, st, read.value, now).frame;
      && |r.state.stages| == |Prune(st.stages, now)| + 1
      && r.state.stages[|r.state.stages| - 1] == ScreenshotOverlay(env.paint, path, now)
      && r.state.stages[|r.state.stages| - 1].expiresAt == now + 3 * Second
      && r.effects == [Show(shown), WriteImage(path, shown)]
    ensures r.Continue? && !TakesScreenshot(cfg, setup, key) ==>
      r.state.stages == Prune(st.stages, now) && |r.effects| == 1
    // The exit key shows the frame, buffers it like any other, and then
    // leaves through the exit branch with the buffer including that frame.
    ensures read.Some? && UserCall(cfg, env, user, st, read.value, now).Returned?
            && TakesExit(cfg, setup, key) ==>
      var shown := UserCall(cfg, env, user, st, read.value, now).frame;
      var exit := Exit(cfg, setup, env, st.frames + (if user.Some? && setup.outputPath.Some? then [shown] else []), now);
      r == Stop(exit.reason, [Show(shown)] + exit.effects)
  {
    match read
    case None => Stop(ReadFailed, [Release])
    case Some(raw) =>
      match UserCall(cfg, env, user, st, raw, now)
      case Raised => Stop(TransformRaised, [Release])
      case Returned(frame) =>
        var active := Prune(st.stages, now);
        var frames := st.frames + (if user.Some? && setup.outputPath.Some? then [frame] else []);
        var r := Dispatch(cfg, setup, env, active, frames, frame, key, now);
        assert r.Continue? ==> forall i :: 0 <= i < |active| ==> r.state.stages[i] == active[i];
        r
  }

  /** Ticks over a sequence of events until the loop stops; events after
      the stopping one are never consumed. */
  function Run<F>(cfg: Config, setup: Setup, env: Collaborators<F>, user: Option<F -> Call<F>>,
                  st: LoopState<F>, events: seq<Event<F>>): (r: Trace<F>)
    ensures r.ticks <= |events|
    ensures r.outcome.Running? ==> r.ticks == |events|
    ensures r.outcome.Stopped? ==> r.ticks >= 1
    ensures |ShownFrames(r.effects)| <= r.ticks
    decreases |events|
  {
    if |events| == 0 then Trace(Running(st), [], 0)
    else
      match Tick(cfg, setup, env, user, st, events[0].read, events[0].key, events[0].now)
      case Stop(reason, effects) =>
        assert |ShownFrames(effects)| <= 1 by {
          ShownFramesOfStop(cfg, setup, env, user, st, events[0]);
        }
        Trace(Stopped(reason), effects, 1)
      case Continue(next, effects) =>
        var rest := Run(cfg, setup, env, user, next, events[1..]);
        ShownFramesAppend(effects, rest.effects);
        Trace(rest.outcome, effects + rest.effects, rest.ticks + 1)
  }

  /** The whole wrapper: initialisation followed by the loop. */
  function Camloop<F>(cfg: Config, env: Collaborators<F>, user: Option<F -> Call<F>>,
                      started: Instant, events: seq<Event<F>>): (r: Trace<F>)
    ensures |r.effects| > 0 && r.effects[0] == OpenSource(cfg.source)
    ensures r.ticks <= |events|
    ensures Release in r.effects <==> r.outcome.Stopped?
  {
    var start := Initialize(cfg, env, started);
    var t := Run(cfg, start.setup, env, user, start.state, events);
    RunReleasesOnlyAtStop(cfg, start.setup, env, user, start.state, events);
    Trace(t.outcome, start.effects + t.effects, t.ticks)
  }

  lemma ShownFramesPair<F>(a: Effect<F>, b: Effect<F>)
    ensures ShownFrames([a, b]) == ShownFrames([a]) + ShownFrames([b])
    ensures ShownFrames([a]) == if a.Show? then [a.frame] else []
  {
    assert [a, b] == [a] + [b];
    ShownFramesAppend([a], [b]);
    assert [a][1..] == [];
  }

  lemma {:induction false} ShownFramesAppend<F>(a: seq<Effect<F>>, b: seq<Effect<F>>)
    ensures ShownFrames(a + b) == ShownFrames(a) + ShownFrames(b)
  {
    if |a| > 0 {
      assert (a + b)[1..] == a[1..] + b;
      ShownFramesAppend(a[1..], b);
    } else {
      assert a + b == b;
    }
  }

  /** A stopping tick shows at most the one frame it transformed. */
  lemma ShownFramesOfStop<F>(cfg: Config, setup: Setup, env: Collaborators<F>, user: Option<F -> Call<F>>,
                             st: LoopState<F>, e: Event<F>)
    requires Tick(cfg, setup, env, user, st, e.read, e.key, e.now).Stop?
    ensures |ShownFrames(Tick(cfg, setup, env, user, st, e.read, e.key, e.now).effects)| <= 1
  {
    var r := Tick(cfg, setup, env, user, st, e.read, e.key, e.now);
    if e.read.Some? && UserCall(cfg, env, user, st, e.read.value, e.now).Returned? {
      var frame := UserCall(cfg, env, user, st, e.read.value, e.now).frame;
      var exit := Exit(cfg, setup, env, st.frames + (if user.Some? && setup.outputPath.Some? then [frame] else []), e.now);
      assert r.effects == [Show(frame)] + exit.effects;
      ShownFramesAppend([Show(frame)], exit.effects);
    } else {
      assert r.effects == [Release];
    }
  }

  /** The capture device and the windows are released exactly on the
      ticks that end the loop: never while it keeps running. */
  lemma {:induction false} RunReleasesOnlyAtStop<F>(cfg: Config, setup: Setup, env: Collaborators<F>,
                                                    user: Option<F -> Call<F>>, st: LoopState<F>, events: seq<Event<F>>)
    ensures Release in Run(cfg, setup, env, user, st, events).effects
        <==> Run(cfg, setup, env, user, st, events).outcome.Stopped?
    decreases |events|
  {
    if |events| > 0 {
      var step := Tick(cfg, setup, env, user, st, events[0].read, events[0].key, events[0].now);
      if step.Continue? {
        RunReleasesOnlyAtStop(cfg, setup, env, user, step.state, events[1..]);
      }
    }
  }

  /** A stop is final: events after the one the loop stopped on are never
      consumed, so appending more of them changes nothing. */
  lemma {:induction false} RunStopIsFinal<F>(cfg: Config, setup: Setup, env: Collaborators<F>, user: Option<F -> Call<F>>,
                                             st: LoopState<F>, events: seq<Event<F>>, more: seq<Event<F>>)
    requires Run(cfg, setup, env, user, st, events).outcome.Stopped?
    ensures Run(cfg, setup, env, user, st, events + more) == Run(cfg, setup, env, user, st, events)
    decreases |events|
  {
    var e := events[0];
    assert (events + more)[0] == e;
    var step := Tick(cfg, setup, env, user, st, e.read, e.key, e.now);
    if step.Continue? {
      assert (events + more)[1..] == events[1..] + more;
      RunStopIsFinal(cfg, setup, env, user, step.state, events[1..], more);
    }
  }

  /** Outside the screenshot branch only the comparison with the exit key
      matters: a screenshot key without an output directory, and any key
      that is not the exit key, act alike. */
  lemma KeyDispatch<F>(cfg: Config, setup: Setup, env: Collaborators<F>, user: Option<F -> Call<F>>,
                       st: LoopState<F>, read: Option<F>, key: int, other: int, now: Instant)
    requires !TakesScreenshot(cfg, setup, key) && !TakesScreenshot(cfg, setup, other)
    requires key == cfg.exitKey as int <==> other == cfg.exitKey as int
    ensures Tick(cfg, setup, env, user, st, read, key, now) == Tick(cfg, setup, env, user, st, read, other, now)
  {
  }

  /** While the loop runs, every overlay it keeps is still active at the
      instant of the last tick. */
  lemma {:induction false} RunKeepsOnlyActiveOverlays<F>(cfg: Config, setup: Setup, env: Collaborators<F>,
                                                         user: Option<F -> Call<F>>, st: LoopState<F>, events: seq<Event<F>>)
    requires |events| > 0
    ensures Run(cfg, setup, env, user, st, events).outcome.Running? ==>
      forall i :: 0 <= i < |Run(cfg, setup, env, user, st, events).outcome.state.stages| ==>
        !Expired(Run(cfg, setup, env, user, st, events).outcome.state.stages[i], events[|events| - 1].now)
    decreases |events|
  {
    var step := Tick(cfg, setup, env, user, st, events[0].read, events[0].key, events[0].now);
    if step.Continue? && |events| > 1 {
      RunKeepsOnlyActiveOverlays(cfg, setup, env, user, step.state, events[1..]);
      assert events[1..][|events| - 2] == events[|events| - 1];
    } else if step.Continue? {
      assert Run(cfg, setup, env, user, step.state, events[1..]).outcome == Running(step.state);
    }
  }

  /** The buffer receives exactly the frames the loop shows, in tick order,
      when there is a user transform and an output directory, and nothing
      otherwise. */
  lemma {:induction false} RunBuffersShownFrames<F>(cfg: Config, setup: Setup, env: Collaborators<F>,
                                                    user: Option<F -> Call<F>>, st: LoopState<F>, events: seq<Event<F>>)
    ensures Run(cfg, setup, env, user, st, events).outcome.Running? ==>
      Run(cfg, setup, env, user, st, events).outcome.state.frames
      == st.frames + (if user.Some? && setup.outputPath.Some?
                      then ShownFrames(Run(cfg, setup, env, user, st, events).effects) else [])
    decreases |events|
  {
    if |events| > 0 {
      var step := Tick(cfg, setup, env, user, st, events[0].read, events[0].key, events[0].now);
      if step.Continue? {
        RunBuffersShownFrames(cfg, setup, env, user, step.state, events[1..]);
        ContinueStep(cfg, setup, env, user, st, events);
        BuffersAfterEffects(st.frames, step.effects, user.Some? && setup.outputPath.Some?,
                            Run(cfg, setup, env, user, step.state, events[1..]), Run(cfg, setup, env, user, st, events));
      }
    }
  }

  /** While the loop runs, the export format makes no difference to it: it
      is read only on the exit branch. */
  lemma {:induction false} RunIgnoresFormat<F>(cfg: Config, setup: Setup, format: Option<string>, env: Collaborators<F>,
                                               user: Option<F -> Call<F>>, st: LoopState<F>, events: seq<Event<F>>)
    ensures Run(cfg, setup, env, user, st, events).outcome.Running?
        <==> Run(cfg, setup.(format := format), env, user, st, events).outcome.Running?
    ensures Run(cfg, setup, env, user, st, events).outcome.Running? ==>
      Run(cfg, setup.(format := format), env, user, st, events) == Run(cfg, setup, env, user, st, events)
    decreases |events|
  {
    if |events| > 0 {
      var e := events[0];
      var step := Tick(cfg, setup, env, user, st, e.read, e.key, e.now);
      var step' := Tick(cfg, setup.(format := format), env, user, st, e.read, e.key, e.now);
      assert step.Continue? <==> step'.Continue?;
      if step.Continue? {
        assert step' == step;
        RunIgnoresFormat(cfg, setup, format, env, user, step.state, events[1..]);
      }
    }
  }

  /** Without a valid output directory the loop never writes a file and
      never fails to export: it only shows frames until it stops. */
  lemma {:induction false} RunWithoutOutputWritesNothing<F>(cfg: Config, setup: Setup, env: Collaborators<F>,
                                                            user: Option<F -> Call<F>>, st: LoopState<F>, events: seq<Event<F>>)
    requires setup.outputPath.None?
    ensures forall i :: 0 <= i < |Run(cfg, setup, env, user, st, events).effects| ==>
      var e := Run(cfg, setup, env, user, st, events).effects[i];
      !e.WriteImage? && !e.WriteSequence?
    ensures Run(cfg, setup, env, user, st, events).outcome.Stopped? ==>
      !Run(cfg, setup, env, user, st, events).outcome.reason.ExportRaised?
    ensures Run(cfg, setup, env, user, st, events).outcome.Running? ==>
      Run(cfg, setup, env, user, st, events).outcome.state.frames == st.frames
    decreases |events|
  {
    if |events| > 0 {
      var e := events[0];
      var step := Tick(cfg, setup, env, user, st, e.read, e.key, e.now);
      if step.Continue? {
        RunWithoutOutputWritesNothing(cfg, setup, env, user, step.state, events[1..]);
        var rest := Run(cfg, setup, env, user, step.state, events[1..]);
        assert |step.effects| == 1;
        assert Run(cfg, setup, env, user, st, events).effects == step.effects + rest.effects;
      } else if e.read.Some? && UserCall(cfg, env, user, st, e.read.value, e.now).Returned? {
        var frame := UserCall(cfg, env, user, st, e.read.value, e.now).frame;
        assert step.effects == [Show(frame), Release];
      }
    }
  }

  /** `s` ends with `suffix`. */
  ghost predicate EndsWith<T>(s: seq<T>, suffix: seq<T>) {
    |suffix| <= |s| && s[|s| - |suffix|..] == suffix
  }

  lemma EndsWithAfter<T>(prefix: seq<T>, s: seq<T>, suffix: seq<T>)
    requires EndsWith(s, suffix)
    ensures EndsWith(prefix + s, suffix)
  {
    assert (prefix + s)[|prefix + s| - |suffix|..] == s[|s| - |suffix|..];
  }

  /** If `r` ended through the exit branch, it did so on `frames` followed
      by every frame it showed, at the instant of its last tick: its reason
      and its last effects are those of `Exit` on that buffer. */
  ghost predicate ExitedOnShownFrames<F>(cfg: Config, setup: Setup, env: Collaborators<F>, frames: seq<F>,
                                         events: seq<Event<F>>, r: Trace<F>) {
    r.outcome.Stopped? && (r.outcome.reason.ExitKey? || r.outcome.reason.ExportRaised?) ==>
      && 1 <= r.ticks <= |events|
      && var exit := Exit(cfg, setup, env, frames + ShownFrames(r.effects), events[r.ticks - 1].now);
      && r.outcome.reason == exit.reason
      && EndsWith(r.effects, exit.effects)
  }

  /** A run that leaves through the exit branch does so on the buffer it
      holds at that point: with a user transform and a directory, that is
      the frames already buffered followed by every frame the run showed,
      in order. Its reason and last effects are those of `Exit` on that
      buffer at the last tick's instant. */
  lemma {:induction false} RunExitsWithShownFrames<F>(cfg: Config, setup: Setup, env: Collaborators<F>,
                                                      user: Option<F -> Call<F>>, st: LoopState<F>, events: seq<Event<F>>)
    requires user.Some? && setup.outputPath.Some?
    ensures ExitedOnShownFrames(cfg, setup, env, st.frames, events, Run(cfg, setup, env, user, st, events))
    decreases |events|
  {
    if |events| > 0 {
      var e := events[0];
      var step := Tick(cfg, setup, env, user, st, e.read, e.key, e.now);
      if step.Continue? {
        RunExitsWithShownFrames(cfg, setup, env, user, step.state, events[1..]);
        ExitAfterContinue(cfg, setup, env, user, st, events);
      } else if step.reason.ExitKey? || step.reason.ExportRaised? {
        ExitTick(cfg, setup, env, user, st, e);
      }
    }
  }

  /** A continuing first tick passes an exit through the rest of the run on
      to the whole run: its shown frame joins the front of the buffer. */
  lemma ExitAfterContinue<F>(cfg: Config, setup: Setup, env: Collaborators<F>, user: Option<F -> Call<F>>,
                             st: LoopState<F>, events: seq<Event<F>>)
    requires user.Some? && setup.outputPath.Some? && |events| > 0
    requires Tick(cfg, setup, env, user, st, events[0].read, events[0].key, events[0].now).Continue?
    requires var step := Tick(cfg, setup, env, user, st, events[0].read, events[0].key, events[0].now);
      ExitedOnShownFrames(cfg, setup, env, step.state.frames, events[1..], Run(cfg, setup, env, user, step.state, events[1..]))
    ensures ExitedOnShownFrames(cfg, setup, env, st.frames, events, Run(cfg, setup, env, user, st, events))
  {
    var step := Tick(cfg, setup, env, user, st, events[0].read, events[0].key, events[0].now);
    ContinueStep(cfg, setup, env, user, st, events);
    ExitAfterEffects(cfg, setup, env, st.frames, events, step.effects,
                     Run(cfg, setup, env, user, step.state, events[1..]), Run(cfg, setup, env, user, st, events));
  }

  /** The trace-level step of `ExitAfterContinue`: effects before a trace
      that ended through the exit branch put their shown frames at the
      front of its buffer and leave its last effects in place. */
  lemma ExitAfterEffects<F>(cfg: Config, setup: Setup, env: Collaborators<F>, frames: seq<F>, events: seq<Event<F>>,
                            first: seq<Effect<F>>, rest: Trace<F>, whole: Trace<F>)
    requires |events| > 0
    requires whole == Trace(rest.outcome, first + rest.effects, rest.ticks + 1)
    requires ExitedOnShownFrames(cfg, setup, env, frames + ShownFrames(first), events[1..], rest)
    ensures ExitedOnShownFrames(cfg, setup, env, frames, events, whole)
  {
    if rest.outcome.Stopped? && (rest.outcome.reason.ExitKey? || rest.outcome.reason.ExportRaised?) {
      ShownFramesAppend(first, rest.effects);
      BufferAssoc(frames, ShownFrames(first), ShownFrames(rest.effects));
      assert events[whole.ticks - 1] == events[1..][rest.ticks - 1];
      var exit := Exit(cfg, setup, env, frames + ShownFrames(first) + ShownFrames(rest.effects), events[1..][rest.ticks - 1].now);
      EndsWithAfter(first, rest.effects, exit.effects);
    }
  }

  /** A run that leaves through the exit branch with a user transform, a
      directory and a format hands the exporter every frame it showed, in
      order, after the frames already buffered; the export's outcome decides
      how the run ends and what it writes last. */
  lemma RunExportsShownFrames<F>(cfg: Config, setup: Setup, env: Collaborators<F>,
                                 user: Option<F -> Call<F>>, st: LoopState<F>, events: seq<Event<F>>)
    requires user.Some? && setup.outputPath.Some? && setup.format.Some?
    ensures var r := Run(cfg, setup, env, user, st, events);
      r.outcome.Stopped? && (r.outcome.reason.ExitKey? || r.outcome.reason.ExportRaised?) ==>
      && 1 <= r.ticks
      && var now := events[r.ticks - 1].now;
      match Export.ExportSequence(st.frames + ShownFrames(r.effects), setup.format.value,
                                  Elapsed(setup.startTime, now), cfg.fps, env.toRgb, env.shape)
      case Ok(enc) =>
        && r.outcome == Stopped(ExitKey)
        && (enc.NoFile? ==> EndsWith(r.effects, [Release]))
        && (!enc.NoFile? ==>
              EndsWith(r.effects, [Release, WriteSequence(env.exportPath(setup.outputPath.value, now, setup.format.value), enc)]))
      case Err(e) =>
        r.outcome == Stopped(ExportRaised(e)) && EndsWith(r.effects, [Release, Release])
  {
    RunExitsWithShownFrames(cfg, setup, env, user, st, events);
  }

  /** A continuing first tick: the run is that tick followed by the run
      from its state, and the tick buffers what it shows. */
  lemma ContinueStep<F>(cfg: Config, setup: Setup, env: Collaborators<F>, user: Option<F -> Call<F>>,
                        st: LoopState<F>, events: seq<Event<F>>)
    requires |events| > 0
    requires Tick(cfg, setup, env, user, st, events[0].read, events[0].key, events[0].now).Continue?
    ensures var step := Tick(cfg, setup, env, user, st, events[0].read, events[0].key, events[0].now);
      var rest := Run(cfg, setup, env, user, step.state, events[1..]);
      && Run(cfg, setup, env, user, st, events) == Trace(rest.outcome, step.effects + rest.effects, rest.ticks + 1)
      && step.state.frames == st.frames + (if user.Some? && setup.outputPath.Some? then ShownFrames(step.effects) else [])
  {
  }

  /** The trace-level step of `RunBuffersShownFrames`: effects whose shown
      frames were buffered, before a trace that buffered its own, make a
      trace that buffered all of them. */
  lemma BuffersAfterEffects<F>(frames: seq<F>, first: seq<Effect<F>>, buffered: bool, rest: Trace<F>, whole: Trace<F>)
    requires whole == Trace(rest.outcome, first + rest.effects, rest.ticks + 1)
    requires rest.outcome.Running? ==>
      rest.outcome.state.frames
      == frames + (if buffered then ShownFrames(first) else []) + (if buffered then ShownFrames(rest.effects) else [])
    ensures whole.outcome.Running? ==>
      whole.outcome.state.frames == frames + (if buffered then ShownFrames(whole.effects) else [])
  {
    ShownFramesAppend(first, rest.effects);
    if buffered {
      BufferAssoc(frames, ShownFrames(first), ShownFrames(rest.effects));
    } else {
      assert frames + [] + [] == frames + [];
    }
  }

  lemma BufferAssoc<F>(frames: seq<F>, a: seq<F>, b: seq<F>)
    ensures frames + (a + b) == (frames + a) + b
  {
  }

  /** A tick that leaves through the exit branch shows its frame, buffers
      it, and hands `Exit` the buffer with that frame at the end. */
  lemma ExitTick<F>(cfg: Config, setup: Setup, env: Collaborators<F>, user: Option<F -> Call<F>>,
                    st: LoopState<F>, e: Event<F>)
    requires user.Some? && setup.outputPath.Some?
    requires Tick(cfg, setup, env, user, st, e.read, e.key, e.now).Stop?
    requires Tick(cfg, setup, env, user, st, e.read, e.key, e.now).reason.ExitKey?
          || Tick(cfg, setup, env, user, st, e.read, e.key, e.now).reason.ExportRaised?
    ensures var step := Tick(cfg, setup, env, user, st, e.read, e.key, e.now);
      var exit := Exit(cfg, setup, env, st.frames + ShownFrames(step.effects), e.now);
      step.reason == exit.reason && EndsWith(step.effects, exit.effects)
  {
    var shown := UserCall(cfg, env, user, st, e.read.value, e.now).frame;
    var exit := Exit(cfg, setup, env, st.frames + [shown], e.now);
    ShownFramesAppend([Show(shown)], exit.effects);
    assert ShownFrames([Show(shown)]) == [shown] by {
      ShownFramesPair(Show(shown), Release);
    }
    EndsWithAfter([Show(shown)], exit.effects, exit.effects);
  }

  /** Without a validated format the loop never writes a sequence and never
      fails to export. */
  lemma {:induction false} RunWithoutFormatExportsNothing<F>(cfg: Config, setup: Setup, env: Collaborators<F>,
                                                             user: Option<F -> Call<F>>, st: LoopState<F>, events: seq<Event<F>>)
    requires setup.format.None?
    ensures forall i :: 0 <= i < |Run(cfg, setup, env, user, st, events).effects| ==>
      !Run(cfg, setup, env, user, st, events).effects[i].WriteSequence?
    ensures Run(cfg, setup, env, user, st, events).outcome.Stopped? ==>
      !Run(cfg, setup, env, user, st, events).outcome.reason.ExportRaised?
    decreases |events|
  {
    if |events| > 0 {
      var e := events[0];
      var step := Tick(cfg, setup, env, user, st, e.read, e.key, e.now);
      if step.Continue? {
        RunWithoutFormatExportsNothing(cfg, setup, env, user, step.state, events[1..]);
        ContinueStep(cfg, setup, env, user, st, events);
        WritesNoSequenceAppend(step.effects, Run(cfg, setup, env, user, step.state, events[1..]).effects);
      } else {
        StopWithoutFormat(cfg, setup, env, user, st, e);
      }
    }
  }

  /** No effect in `effects` writes a sequence. */
  ghost predicate WritesNoSequence<F>(effects: seq<Effect<F>>) {
    forall i :: 0 <= i < |effects| ==> !effects[i].WriteSequence?
  }

  lemma WritesNoSequenceAppend<F>(a: seq<Effect<F>>, b: seq<Effect<F>>)
    requires WritesNoSequence(a) && WritesNoSequence(b)
    ensures WritesNoSequence(a + b)
  {
    forall i | 0 <= i < |a + b|
      ensures !(a + b)[i].WriteSequence?
    {
      if i >= |a| {
        assert (a + b)[i] == b[i - |a|];
      }
    }
  }

  /** Without a validated format a stopping tick writes no sequence and
      raises no export error. */
  lemma StopWithoutFormat<F>(cfg: Config, setup: Setup, env: Collaborators<F>, user: Option<F -> Call<F>>,
                             st: LoopState<F>, e: Event<F>)
    requires setup.format.None?
    requires Tick(cfg, setup, env, user, st, e.read, e.key, e.now).Stop?
    ensures WritesNoSequence(Tick(cfg, setup, env, user, st, e.read, e.key, e.now).effects)
    ensures !Tick(cfg, setup, env, user, st, e.read, e.key, e.now).reason.ExportRaised?
  {
    if e.read.Some? && UserCall(cfg, env, user, st, e.read.value, e.now).Returned? {
      var frame := UserCall(cfg, env, user, st, e.read.value, e.now).frame;
      assert Tick(cfg, setup, env, user, st, e.read, e.key, e.now).effects == [Show(frame), Release];
    }
  }

  /** With every option left at its default the wrapper exports nothing,
      since no format is configured; given a user transform and an existing
      current directory it still buffers every frame it shows. */
  lemma DefaultConfigNeverExports<F>(env: Collaborators<F>, user: Option<F -> Call<F>>,
                                     started: Instant, events: seq<Event<F>>)
    ensures forall i :: 0 <= i < |Camloop(DefaultConfig(), env, user, started, events).effects| ==>
      !Camloop(DefaultConfig(), env, user, started, events).effects[i].WriteSequence?
    ensures Camloop(DefaultConfig(), env, user, started, events).outcome.Stopped? ==>
      !Camloop(DefaultConfig(), env, user, started, events).outcome.reason.ExportRaised?
    ensures user.Some? && env.isPresent(env.resolve("."))
            && Camloop(DefaultConfig(), env, user, started, events).outcome.Running? ==>
      Camloop(DefaultConfig(), env, user, started, events).outcome.state.frames
      == ShownFrames(Camloop(DefaultConfig(), env, user, started, events).effects)
  {
    var cfg := DefaultConfig();
    var start := Initialize(cfg, env, started);
    var t := Run(cfg, start.setup, env, user, start.state, events);
    var r := Camloop(cfg, env, user, started, events);
    assert start.effects == [OpenSource(Device(0))];
    assert r.effects == start.effects + t.effects;
    RunWithoutFormatExportsNothing(cfg, start.setup, env, user, start.state, events);
    RunBuffersShownFrames(cfg, start.setup, env, user, start.state, events);
    ShownFramesAppend(start.effects, t.effects);
    assert forall i :: 0 <= i < |r.effects| ==> !r.effects[i].WriteSequence? by {
      forall i | 0 <= i < |r.effects|
        ensures !r.effects[i].WriteSequence?
      {
        if i > 0 {
          assert r.effects[i] == t.effects[i - 1];
        }
      }
    }
  }

  /** One tick of the mirrored-preview scenario: the mirrored input is shown
      and buffered when there is a directory, and the loop goes on, or
      stops on the exit key. */
  lemma MirrorStep<F>(cfg: Config, setup: Setup, env: Collaborators<F>,
                      user: Option<F -> Call<F>>, frames: seq<F>, e: Event<F>)
    requires cfg.mirror && setup.format.None? && !TakesScreenshot(cfg, setup, e.key)
    requires user.Some? && forall x :: user.value(x) == Returned(x)
    requires e.read.Some?
    ensures e.key != cfg.exitKey as int ==>
      Tick(cfg, setup, env, user, LoopState([], frames), e.read, e.key, e.now)
      == Continue(LoopState([], frames + (if setup.outputPath.Some? then [env.flip(e.read.value)] else [])),
                  [Show(env.flip(e.read.value))])
    ensures e.key == cfg.exitKey as int ==>
      Tick(cfg, setup, env, user, LoopState([], frames), e.read, e.key, e.now)
      == Stop(ExitKey, [Show(env.flip(e.read.value)), Release])
  {
    var shown := env.flip(e.read.value);
    assert Prune<F, string>([], e.now) == [];
    assert Preprocess(cfg, env, [], e.read.value, e.now) == shown;
    assert Transform(user, shown) == Returned(shown);
    if e.key == cfg.exitKey as int {
      var buffered := frames + (if setup.outputPath.Some? then [shown] else []);
      assert Exit(cfg, setup, env, buffered, e.now) == Stop(ExitKey, [Release]);
      assert [Show(shown)] + [Release] == [Show(shown), Release];
    }
  }

  /** The preconditions of the mirrored-preview scenario. */
  predicate MirrorPreview<F>(cfg: Config, setup: Setup, user: Option<F -> Call<F>>, events: seq<Event<F>>) {
    && cfg.mirror && setup.format.None? && user.Some?
    && |events| > 0
    && (forall i :: 0 <= i < |events| ==> events[i].read.Some? && !TakesScreenshot(cfg, setup, events[i].key))
    && (forall i :: 0 <= i < |events| - 1 ==> events[i].key != cfg.exitKey as int)
    && events[|events| - 1].key == cfg.exitKey as int
  }

  /** The frames the scenario's first tick leaves in the buffer. */
  function MirrorBuffer<F>(setup: Setup, env: Collaborators<F>, frames: seq<F>, e: Event<F>): seq<F>
    requires e.read.Some?
  {
    frames + (if setup.outputPath.Some? then [env.flip(e.read.value)] else [])
  }

  /** The scenario runs every tick and stops on the exit key. */
  lemma {:induction false} MirrorScenarioStops<F>(cfg: Config, setup: Setup, env: Collaborators<F>,
                                                  user: Option<F -> Call<F>>, frames: seq<F>, events: seq<Event<F>>)
    requires MirrorPreview(cfg, setup, user, events)
    requires forall x :: user.value(x) == Returned(x)
    ensures Run(cfg, setup, env, user, LoopState([], frames), events).outcome == Stopped(ExitKey)
    ensures Run(cfg, setup, env, user, LoopState([], frames), events).ticks == |events|
    decreases |events|
  {
    MirrorStep(cfg, setup, env, user, frames, events[0]);
    if |events| > 1 {
      assert MirrorPreview(cfg, setup, user, events[1..]);
      MirrorScenarioStops(cfg, setup, env, user, MirrorBuffer(setup, env, frames, events[0]), events[1..]);
    }
  }

  /** The mirrored reads of a run of events are the first one's followed by the rest's. */
  lemma MirroredReadsSplit<F>(env: Collaborators<F>, events: seq<Event<F>>)
    requires |events| > 1 && forall i :: 0 <= i < |events| ==> events[i].read.Some?
    ensures seq(|events|, i requires 0 <= i < |events| => env.flip(events[i].read.value))
         == [env.flip(events[0].read.value)]
            + seq(|events| - 1, i requires 0 <= i < |events| - 1 => env.flip(events[1..][i].read.value))
  {
  }

  /** The scenario shows each input mirrored, in order. */
  lemma {:induction false} MirrorScenarioShows<F>(cfg: Config, setup: Setup, env: Collaborators<F>,
                                                  user: Option<F -> Call<F>>, frames: seq<F>, events: seq<Event<F>>)
    requires MirrorPreview(cfg, setup, user, events)
    requires forall x :: user.value(x) == Returned(x)
    ensures ShownFrames(Run(cfg, setup, env, user, LoopState([], frames), events).effects)
         == seq(|events|, i requires 0 <= i < |events| => env.flip(events[i].read.value))
    decreases |events|
  {
    var shown := env.flip(events[0].read.value);
    var expected := seq(|events|, i requires 0 <= i < |events| => env.flip(events[i].read.value));
    MirrorStep(cfg, setup, env, user, frames, events[0]);
    if |events| == 1 {
      ShownFramesPair(Show(shown), Release);
      assert expected == [shown];
    } else {
      assert ShownFrames([Show(shown)]) == [shown] by {
        ShownFramesPair(Show(shown), Release);
      }
      var tail := events[1..];
      var next := MirrorBuffer(setup, env, frames, events[0]);
      var rest := Run(cfg, setup, env, user, LoopState([], next), tail);
      assert MirrorPreview(cfg, setup, user, tail);
      MirrorScenarioShows(cfg, setup, env, user, next, tail);
      ShownFramesAppend([Show(shown)], rest.effects);
      MirroredReadsSplit(env, events);
    }
  }

  /** The mirrored-preview scenario: with mirroring on, no export format, a
      pass-through transform, no overlays, no key the screenshot branch
      takes, and the exit key on the last of a run of successful reads, the
      loop runs every tick, shows each input mirrored, in order, and stops
      on the exit key with the resources released, whether or not an
      output directory validated. */
  lemma MirrorScenario<F>(cfg: Config, setup: Setup, env: Collaborators<F>,
                          user: Option<F -> Call<F>>, frames: seq<F>, events: seq<Event<F>>)
    requires cfg.mirror && setup.format.None?
    requires user.Some? && forall x :: user.value(x) == Returned(x)
    requires |events| > 0
    requires forall i :: 0 <= i < |events| ==> events[i].read.Some? && !TakesScreenshot(cfg, setup, events[i].key)
    requires forall i :: 0 <= i < |events| - 1 ==> events[i].key != cfg.exitKey as int
    requires events[|events| - 1].key == cfg.exitKey as int
    ensures Run(cfg, setup, env, user, LoopState([], frames), events).outcome == Stopped(ExitKey)
    ensures Run(cfg, setup, env, user, LoopState([], frames), events).ticks == |events|
    ensures ShownFrames(Run(cfg, setup, env, user, LoopState([], frames), events).effects)
         == seq(|events|, i requires 0 <= i < |events| => env.flip(events[i].read.value))
    ensures Release in Run(cfg, setup, env, user, LoopState([], frames), events).effects
  {
    assert MirrorPreview(cfg, setup, user, events);
    MirrorScenarioStops(cfg, setup, env, user, frames, events);
    MirrorScenarioShows(cfg, setup, env, user, frames, events);
    RunReleasesOnlyAtStop(cfg, setup, env, user, LoopState([], frames), events);
  }
}
