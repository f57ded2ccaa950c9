/** ConversionPipeline: the read-until-not-ok loop that rasterises and writes
    one frame per successful read, with progress every 50 frames; and the
    set-up that resolves the run's settings before it. */
module Pipeline {
  import opened Common
  import opened Paths
  import opened Color
  import opened Geometry
  import opened Raster
  import opened Params

  /** Frames between two progress lines. */
  const ProgressInterval: int := 50

  /** What cap.read() returns on its i-th call: a frame, already downsampled
      to the grid, or not-ok. Reading past the end of `source` is not-ok. */
  function Read(source: seq<Option<Grid>>, i: nat): Option<Grid>
  {
    if i < |source| then source[i] else None
  }

  /** The number of reads that succeed before the first failed one. */
  function ReadablePrefix(source: seq<Option<Grid>>): (n: nat)
    ensures n <= |source|
    ensures forall i :: 0 <= i < n ==> source[i].Some?
    ensures Read(source, n).None?
  {
    if |source| == 0 || source[0].None? then 0
    else
      var m := ReadablePrefix(source[1..]);
      assert forall i :: 1 <= i <= m ==> source[i] == source[1..][i - 1];
      1 + m
  }

  /** A source whose first `n` reads succeed and whose next read fails
      yields exactly `n` frames: a failure is never skipped over, and later
      good frames are never reached. */
  lemma ReadablePrefixExact(source: seq<Option<Grid>>, n: nat)
    requires forall i :: 0 <= i < n ==> Read(source, i).Some?
    requires Read(source, n).None?
    ensures ReadablePrefix(source) == n
  {
  }

  /** `if frame_count and processed % 50 == 0`. */
  predicate ReportsAt(processed: int, frameCount: int)
  {
    frameCount != 0 && processed % ProgressInterval == 0
  }

  /** One "Frames: processed/total" line. */
  datatype Progress = Progress(processed: nat, total: int)

  /** The progress lines printed while the first n frames are processed. */
  function ProgressLog(n: nat, frameCount: int): seq<Progress>
  {
    if n == 0 then []
    else ProgressLog(n - 1, frameCount)
         + (if ReportsAt(n, frameCount) then [Progress(n, frameCount)] else [])
  }

  /** The progress lines are exactly the multiples of 50 up to n, in order,
      and there are none when the frame count is unknown (0). */
  lemma {:induction false} ProgressLogContents(n: nat, frameCount: int)
    ensures |ProgressLog(n, frameCount)| == if frameCount == 0 then 0 else n / ProgressInterval
    ensures forall j :: 0 <= j < |ProgressLog(n, frameCount)| ==>
      ProgressLog(n, frameCount)[j] == Progress(ProgressInterval * (j + 1), frameCount)
  {
    if n > 0 {
      ProgressLogContents(n - 1, frameCount);
    }
  }

  /** Lines 72-109 with decoding, resizing and encoding abstracted: returns
      the frames handed to writer.write, the final `processed` count and the
      progress lines printed. */
  method Convert(source: seq<Option<Grid>>, plan: Plan, mode: ColorMode, frameCount: int)
    returns (written: seq<OutFrame>, processed: nat, log: seq<Progress>)
    requires plan.Valid()
    requires forall i :: 0 <= i < ReadablePrefix(source) ==> Fits(source[i].value, plan)
    ensures processed == ReadablePrefix(source) == |written|
    ensures forall i :: 0 <= i < |written| ==>
      written[i] == OutFrame(plan.outW, plan.outH, Render(plan, mode, source[i].value))
    ensures log == ProgressLog(processed, frameCount)
  {
    written, processed, log := [], 0, [];
    while true
      invariant processed == |written| <= |source|
      invariant forall i :: 0 <= i < processed ==> source[i].Some?
      invariant forall i :: 0 <= i < |written| ==>
        written[i] == OutFrame(plan.outW, plan.outH, Render(plan, mode, source[i].value))
      invariant log == ProgressLog(processed, frameCount)
      decreases |source| - processed
    {
      var frame := Read(source, processed);
      if frame.None? {
        break;
      }
      var out := Rasterize(plan, mode, frame.value);
      written := written + [out];
      processed := processed + 1;
      if ReportsAt(processed, frameCount) {
        log := log + [Progress(processed, frameCount)];
      }
    }
    ReadablePrefixExact(source, processed);
  }

  /** A run's settings, resolved from the four console answers. */
  datatype Settings = Settings(
    input: string,
    output: string,
    temp: string,
    width: WidthChoice,
    mode: ColorMode)

  datatype SetupError = InputNotFound | GeometryFailed(why: GeometryError)

  /** Lines 15-46 and 115: the discovered input, the output and temporary
      paths, the width and the color mode. */
  function Resolve(inputName: string, outputName: string, widthText: string, modeText: string,
                   pathExists: string -> bool): (r: Result<Settings, SetupError>)
    ensures r.Failure? <==> forall k :: 0 <= k < |Extensions| ==> !pathExists(inputName + Extensions[k])
    ensures r.Failure? ==> r.error == InputNotFound
    ensures r.Success? ==>
      && pathExists(r.value.input)
      && Some(r.value.input) == FirstExisting(inputName, pathExists, Extensions)
      && r.value.width == ResolveWidth(widthText)
      && r.value.mode == ChooseMode(modeText)
      && r.value.output == OutputPath(r.value.input, outputName)
      && r.value.temp == TempPath(r.value.output)
      && r.value.temp != r.value.output
      && r.value.width.width >= MinWidth
      && (r.value.mode == Green <==> modeText == "1")
  {
    match FirstExisting(inputName, pathExists, Extensions)
    case None => Failure(InputNotFound)
    case Some(input) =>
      var output := OutputPath(input, outputName);
      TempDiffersFromOutput(output);
      Success(Settings(input, output, TempPath(output), ResolveWidth(widthText), ChooseMode(modeText)))
  }

  /** End to end: with no output name, a base naming a file resolves to
      base + "_ascii.mp4" and the temporary file base + "_ascii_temp.mp4",
      whichever of the four extensions was found. */
  lemma ResolveDefaultNaming(inputName: string, widthText: string, modeText: string,
                             pathExists: string -> bool)
    requires Name(inputName) != []
    requires Resolve(inputName, "", widthText, modeText, pathExists).Success?
    ensures var s := Resolve(inputName, "", widthText, modeText, pathExists).value;
      s.output == inputName + "_ascii.mp4" && s.temp == inputName + "_ascii_temp.mp4"
  {
    var s := Resolve(inputName, "", widthText, modeText, pathExists).value;
    var k :| 0 <= k < |Extensions| && s.input == inputName + Extensions[k];
    ExtensionsAreExtensions();
    DefaultOutputPath(inputName, Extensions[k]);
    DefaultTempPath(inputName);
  }

  /** The plan from resolved settings and the source's reported size. */
  function Setup(settings: Settings, srcW: int, srcH: int, bboxW: int, bboxH: int): (r: Result<Plan, SetupError>)
    requires settings.width.width >= MinWidth
    ensures r.Failure? <==> srcW == 0
    ensures r.Success? ==> r.value.Valid() && r.value.gridW == settings.width.width
  {
    match PlanGeometry(srcW, srcH, settings.width.width, bboxW, bboxH)
    case Failure(e) => Failure(GeometryFailed(e))
    case Success(plan) => Success(plan)
  }
}
