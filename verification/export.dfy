/** The parameter branch of `export_sequence`: which encoder is called, on
    which frames and with which timing, or which exception stops it. The
    encoders themselves are not modelled; an `Encoding` records the call the
    exporter makes. */
module Export {
  import opened Options
  import Formats

  /** The two mutually exclusive ways a GIF is timed. */
  datatype GifTiming = AtFps(fps: real) | PerFrame(seconds: real)

  /** The encoder call that finishes an export. `NoFile` is the fall-through
      for a format string that names neither container. */
  datatype Encoding<F> =
    | GifFile(frames: seq<F>, timing: GifTiming)
    | Mp4File(frames: seq<F>, fps: real, width: int, height: int)
    | NoFile

  /** The exceptions raised before an encoder is reached. */
  datatype ExportError =
    | ConversionFailed   // the BGR to RGB conversion rejected a frame
    | ZeroDivision       // a derived rate or duration divided by zero
    | IndexOutOfRange    // the first frame of an empty sequence was read
    | UnpackFailed       // the first frame's shape is not (height, width, channels)

  /** Converts every frame with `toRgb` in order; `None` from `toRgb` is
      the conversion raising, which stops the whole list. */
  function ConvertAll<F>(frames: seq<F>, toRgb: F -> Option<F>): (r: Result<seq<F>, ExportError>)
    ensures r.Ok? <==> forall i :: 0 <= i < |frames| ==> toRgb(frames[i]).Some?
    ensures r.Ok? ==> |r.value| == |frames|
    ensures r.Ok? ==> forall i :: 0 <= i < |frames| ==> toRgb(frames[i]) == Some(r.value[i])
    ensures r.Err? ==> r.error == ConversionFailed
  {
    if |frames| == 0 then Ok([])
    else
      match toRgb(frames[0])
      case None => Err(ConversionFailed)
      case Some(first) =>
        match ConvertAll(frames[1..], toRgb)
        case Err(e) => Err(e)
        case Ok(rest) => Ok([first] + rest)
  }

  /** `export_sequence` up to the encoder call. `duration` is the loop's
      running time in seconds, `fps` the optional configured rate, `shape`
      the frame's array shape. */
  function ExportSequence<F>(sequence: seq<F>, fmt: string, duration: real, fps: Option<real>,
                             toRgb: F -> Option<F>, shape: F -> seq<int>): (r: Result<Encoding<F>, ExportError>)
    // A format naming neither container writes nothing and raises nothing.
    ensures fmt != Formats.Gif && fmt != Formats.Mp4 ==> r == Ok(NoFile)
    // GIF: every frame is colour-converted, in order, before encoding.
    ensures fmt == Formats.Gif && r.Ok? ==>
      r.value.GifFile? && |r.value.frames| == |sequence|
      && forall i :: 0 <= i < |sequence| ==> toRgb(sequence[i]) == Some(r.value.frames[i])
    // GIF with a configured rate: it is passed on unchanged.
    ensures fmt == Formats.Gif && fps.Some? ==>
      (r.Ok? <==> ConvertAll(sequence, toRgb).Ok?)
      && (r.Ok? ==> r.value.timing == AtFps(fps.value))
    // GIF without one: a per-frame duration that adds up to the running time.
    ensures fmt == Formats.Gif && fps.None? ==>
      (r.Ok? <==> ConvertAll(sequence, toRgb).Ok? && |sequence| > 0)
      && (r.Ok? ==> r.value.timing.PerFrame? && r.value.timing.seconds * (|sequence| as real) == duration)
    ensures fmt == Formats.Gif && ConvertAll(sequence, toRgb).Err? ==> r == Err(ConversionFailed)
    ensures fmt == Formats.Gif && fps.None? && ConvertAll(sequence, toRgb).Ok? && |sequence| == 0 ==>
      r == Err(ZeroDivision)
    // MP4: succeeds exactly when the rate is known or derivable and the
    // first frame has a three-part shape.
    ensures fmt == Formats.Mp4 ==>
      (r.Ok? <==> (fps.Some? || duration != 0.0) && |sequence| > 0 && |shape(sequence[0])| == 3)
    ensures fmt == Formats.Mp4 && fps.None? && duration == 0.0 ==> r == Err(ZeroDivision)
    ensures fmt == Formats.Mp4 && (fps.Some? || duration != 0.0) && |sequence| == 0 ==> r == Err(IndexOutOfRange)
    ensures fmt == Formats.Mp4 && (fps.Some? || duration != 0.0) && |sequence| > 0 && |shape(sequence[0])| != 3 ==>
      r == Err(UnpackFailed)
    // MP4 output: all frames in order, at the configured rate or at the one
    // that plays them back in the running time, sized like the first frame.
    ensures fmt == Formats.Mp4 && r.Ok? ==>
      r.value.Mp4File? && r.value.frames == sequence
      && (fps.Some? ==> r.value.fps == fps.value)
      && (fps.None? ==> r.value.fps * duration == |sequence| as real)
      && r.value.height == shape(sequence[0])[0] && r.value.width == shape(sequence[0])[1]
  {
    if fmt == Formats.Gif then
      match ConvertAll(sequence, toRgb)
      case Err(e) => Err(e)
      case Ok(rgb) =>
        match fps
        case Some(rate) => Ok(GifFile(rgb, AtFps(rate)))
        case None =>
          if |rgb| == 0 then Err(ZeroDivision)
          else Ok(GifFile(rgb, PerFrame(duration / (|rgb| as real))))
    else if fmt == Formats.Mp4 then
      if fps.None? && duration == 0.0 then Err(ZeroDivision)
      else
        var rate := if fps.Some? then fps.value else (|sequence| as real) / duration;
        if |sequence| == 0 then Err(IndexOutOfRange)
        else if |shape(sequence[0])| != 3 then Err(UnpackFailed)
        else
          var dims := shape(sequence[0]);
          Ok(Mp4File(sequence, rate, dims[1], dims[0]))
    else
      Ok(NoFile)
  }
}
