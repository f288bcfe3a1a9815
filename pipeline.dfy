/** `convertAndCompressImage` (src/lib/imageProcessor.ts:632-694): the order
    in which the stages run, which ones run, and with what arguments. The
    method reassigns the processed file stage by stage, as the source does,
    and records each stage it starts. */
module Pipeline {
  import opened Wrappers
  import opened ConverterTypes
  import opened ImageFormats
  import opened FilterString
  import opened Transforms
  import opened TargetSize

  /** The options `compressImage` is given; an absent field is a key the
      object does not have. */
  datatype CompressImageOptions = CompressImageOptions(
    maxSizeMB: Option<real>,
    maxWidthOrHeight: Option<nat>,
    useWebWorker: Option<bool>,
    quality: Option<real>)

  /** The options `browser-image-compression` receives. */
  datatype CompressSettings = CompressSettings(maxSizeMB: real, maxWidthOrHeight: nat, useWebWorker: bool, quality: Option<real>)

  /** `{ maxSizeMB: 1, maxWidthOrHeight: 1920, useWebWorker: true, ...options }`
      (imageProcessor.ts:65-70). */
  function MergeDefaults(o: CompressImageOptions): (s: CompressSettings)
    ensures o.maxSizeMB.Some? ==> s.maxSizeMB == o.maxSizeMB.value
    ensures o.maxSizeMB.None? ==> s.maxSizeMB == 1.0
    ensures o.maxWidthOrHeight.Some? ==> s.maxWidthOrHeight == o.maxWidthOrHeight.value
    ensures o.maxWidthOrHeight.None? ==> s.maxWidthOrHeight == 1920
    ensures s.useWebWorker == o.useWebWorker.GetOr(true) && s.quality == o.quality
  {
    CompressSettings(o.maxSizeMB.GetOr(1.0), o.maxWidthOrHeight.GetOr(1920), o.useWebWorker.GetOr(true), o.quality)
  }

  /** The image-compression library, which is not part of this model: it
      either yields a file or fails with a message. */
  type Library = (ImageFile, CompressSettings) -> Result<ImageFile>

  /** `compressImage`: the library's file, or its failure reworded. */
  function CompressImage(file: ImageFile, o: CompressImageOptions, library: Library): (r: Result<ImageFile>)
    ensures r.Ok? <==> library(file, MergeDefaults(o)).Ok?
    ensures r.Ok? ==> r.value == library(file, MergeDefaults(o)).value
    ensures r.Err? ==> r.error == "Image compression failed: " + library(file, MergeDefaults(o)).error
  {
    match library(file, MergeDefaults(o))
    case Ok(f) => Ok(f)
    case Err(e) => Err("Image compression failed: " + e)
  }

  /** A stage of the pipeline with the arguments it is called with. */
  datatype Step =
    | FilterStep(filter: string)
    | RotateStep(degrees: int)
    | FlipStep(dir: FlipDirection)
    | CropStep(crop: CropRect)
    | ResizeStep(req: ResizeRequest)
    | TargetStep(bytes: real, format: ImageFormat)
    | LibraryStep(options: CompressImageOptions)
    | ConvertStep(format: ImageFormat, quality: real)

  /** Position of each stage in the source's order. Target compression and
      the library share a position: at most one of them runs. */
  function Rank(s: Step): nat {
    match s
    case FilterStep(_) => 0
    case RotateStep(_) => 1
    case FlipStep(_) => 2
    case CropStep(_) => 3
    case ResizeStep(_) => 4
    case TargetStep(_, _) => 5
    case LibraryStep(_) => 5
    case ConvertStep(_, _) => 6
  }

  /** `options.targetFileSize?.enabled`. */
  predicate TargetEnabled(opts: ConversionOptions) {
    opts.targetFileSize.Some? && opts.targetFileSize.value.enabled
  }

  /** `options.targetFileSize?.enabled && options.targetFileSize.size > 0`. */
  predicate TargetRuns(opts: ConversionOptions) {
    TargetEnabled(opts) && opts.targetFileSize.value.size > 0.0
  }

  /** The target in bytes: KB and MB are 1024 and 1024·1024 bytes. */
  function TargetBytes(t: TargetFileSize): real {
    match t.unit
    case MB => t.size * 1024.0 * 1024.0
    case KB => t.size * 1024.0
  }

  /** `options.maxWidth || options.maxHeight || 1920`. */
  function MaxWidthOrHeight(opts: ConversionOptions): nat {
    if Truthy(opts.maxWidth) then opts.maxWidth.value
    else if Truthy(opts.maxHeight) then opts.maxHeight.value
    else 1920
  }

  /** The options of the quality branch (imageProcessor.ts:677-682). */
  function LibraryOptions(opts: ConversionOptions): CompressImageOptions {
    CompressImageOptions(Some(if opts.quality < 50 then 0.5 else 1.0), Some(MaxWidthOrHeight(opts)), None,
                         Some(opts.quality as real / 100.0))
  }

  /** The request `resizeImage` gets: never a width or height. */
  function ResizeRequestOf(opts: ConversionOptions): ResizeRequest {
    ResizeRequest(opts.maxWidth, opts.maxHeight, None, None, Some(opts.maintainAspectRatio), Some(opts.resizeMode.GetOr(Fit)))
  }

  predicate ResizeRuns(opts: ConversionOptions) {
    Truthy(opts.maxWidth) || Truthy(opts.maxHeight) || opts.resizeMode.Some?
  }

  /** The stage of rank `k` the options call for, if any. */
  function StepAt(opts: ConversionOptions, show: real -> string, k: nat): (s: Option<Step>)
    ensures s.Some? ==> Rank(s.value) == k
  {
    if k == 0 then (if opts.filters.Some? then Some(FilterStep(Text(Parts(opts.filters.value), show))) else None)
    else if k == 1 then (if opts.rotate.Some? && opts.rotate.value != 0 then Some(RotateStep(opts.rotate.value)) else None)
    else if k == 2 then (if opts.flip.Some? && opts.flip.value != NoFlip then Some(FlipStep(opts.flip.value)) else None)
    else if k == 3 then (if opts.crop.Some? then Some(CropStep(opts.crop.value)) else None)
    else if k == 4 then (if ResizeRuns(opts) then Some(ResizeStep(ResizeRequestOf(opts))) else None)
    else if k == 5 then
      (if TargetRuns(opts) then Some(TargetStep(TargetBytes(opts.targetFileSize.value), opts.format))
       else if opts.quality < 1 then Some(LibraryStep(LibraryOptions(opts)))
       else None)
    else None
  }

  function Listed(s: Option<Step>): seq<Step> {
    if s.Some? then [s.value] else []
  }

  /** The stages of rank below `k` the options call for, in rank order. */
  function PlannedBelow(opts: ConversionOptions, show: real -> string, k: nat): seq<Step>
    requires k <= 6
  {
    if k == 0 then [] else PlannedBelow(opts, show, k - 1) + Listed(StepAt(opts, show, k - 1))
  }

  /** The stages before the final format conversion. */
  function Planned(opts: ConversionOptions, show: real -> string): seq<Step> {
    PlannedBelow(opts, show, 6)
  }

  /** The final conversion as the pipeline would issue it. */
  function Conversion(opts: ConversionOptions): Step {
    ConvertStep(opts.format, opts.quality as real / 100.0)
  }

  lemma {:induction false} PlannedBelowMembers(opts: ConversionOptions, show: real -> string, k: nat)
    requires k <= 6
    ensures forall s :: s in PlannedBelow(opts, show, k) <==> Rank(s) < k && StepAt(opts, show, Rank(s)) == Some(s)
  {
    if k > 0 {
      PlannedBelowMembers(opts, show, k - 1);
    }
  }

  lemma {:induction false} PlannedBelowOrdered(opts: ConversionOptions, show: real -> string, k: nat)
    requires k <= 6
    ensures forall i :: 0 <= i < |PlannedBelow(opts, show, k)| ==> Rank(PlannedBelow(opts, show, k)[i]) < k
    ensures forall i, j :: 0 <= i < j < |PlannedBelow(opts, show, k)| ==>
      Rank(PlannedBelow(opts, show, k)[i]) < Rank(PlannedBelow(opts, show, k)[j]) < k
  {
    if k > 0 {
      PlannedBelowOrdered(opts, show, k - 1);
      var prev := PlannedBelow(opts, show, k - 1);
      var ps := PlannedBelow(opts, show, k);
      if StepAt(opts, show, k - 1).Some? {
        forall i | 0 <= i < |ps| ensures Rank(ps[i]) < k {
          if i < |prev| {
            assert ps[i] == prev[i];
          }
        }
        forall i, j | 0 <= i < j < |ps| ensures Rank(ps[i]) < Rank(ps[j]) < k {
          assert ps[i] == prev[i];
          if j < |prev| {
            assert ps[j] == prev[j];
          }
        }
      }
    }
  }

  /** The stages run in the order filters, rotate, flip, crop, resize, then
      target-size or library compression, each at most once, and a stage
      runs exactly when the options call for it. */
  lemma PlannedExact(opts: ConversionOptions, show: real -> string)
    ensures forall s :: s in Planned(opts, show) <==> StepAt(opts, show, Rank(s)) == Some(s)
    ensures forall i, j :: 0 <= i < j < |Planned(opts, show)| ==> Rank(Planned(opts, show)[i]) < Rank(Planned(opts, show)[j])
  {
    PlannedBelowMembers(opts, show, 6);
    PlannedBelowOrdered(opts, show, 6);
    forall s | StepAt(opts, show, Rank(s)) == Some(s) ensures Rank(s) < 6 {
    }
  }

  lemma PlannedBelowPrefix(opts: ConversionOptions, show: real -> string, j: nat, k: nat)
    requires j <= k <= 6
    ensures PlannedBelow(opts, show, j) <= PlannedBelow(opts, show, k)
    decreases k - j
  {
    if j < k {
      PlannedBelowPrefix(opts, show, j, k - 1);
    }
  }

  // ---------------------------------------------------------------------
  // The pipeline

  /** The detected format depends only on the name and the MIME type. This
      holds by the definition of `GetImageFormat`; it records why the
      redraw stages, which keep both, never change the detected format. */
  lemma SameFormat(a: ImageFile, b: ImageFile)
    requires a.name == b.name && a.mime == b.mime
    ensures GetImageFormat(a) == GetImageFormat(b)
  {
  }

  /** The file the redraw stage of rank `k` (imageProcessor.ts:639-666)
      turns `f` into: the stage's transform when the options call for it,
      and `f` itself otherwise. */
  function StageResult(k: nat, f: ImageFile, opts: ConversionOptions, enc: Encoder): Result<ImageFile>
    requires opts.rotate.Some? ==> opts.rotate.value % 90 == 0
  {
    if k == 0 then (if opts.filters.Some? then ApplyImageFilters(f, opts.filters.value, enc) else Ok(f))
    else if k == 1 then (if opts.rotate.Some? && opts.rotate.value != 0 then RotateImage(f, opts.rotate.value, enc) else Ok(f))
    else if k == 2 then (if opts.flip.Some? && opts.flip.value != NoFlip then FlipImage(f, opts.flip.value, enc) else Ok(f))
    else if k == 3 then (if opts.crop.Some? then CropImage(f, opts.crop.value, enc) else Ok(f))
    else if k == 4 then (if ResizeRuns(opts) then ResizeImage(f, ResizeRequestOf(opts), enc) else Ok(f))
    else Ok(f)
  }

  /** The file after the redraw stages of rank below `k`; the first stage
      that fails ends the pipeline with its error. */
  function RedrawnBelow(file: ImageFile, opts: ConversionOptions, enc: Encoder, k: nat): Result<ImageFile>
    requires k <= 5 && (opts.rotate.Some? ==> opts.rotate.value % 90 == 0)
  {
    if k == 0 then Ok(file)
    else match RedrawnBelow(file, opts, enc, k - 1)
      case Err(e) => Err(e)
      case Ok(f) => StageResult(k - 1, f, opts, enc)
  }

  /** The file after all five redraw stages. */
  function Redrawn(file: ImageFile, opts: ConversionOptions, enc: Encoder): Result<ImageFile>
    requires opts.rotate.Some? ==> opts.rotate.value % 90 == 0
  {
    RedrawnBelow(file, opts, enc, 5)
  }

  /** A failure stays the pipeline's outcome through the later stages. */
  lemma {:induction false} FailureStays(file: ImageFile, opts: ConversionOptions, enc: Encoder, j: nat, k: nat)
    requires j <= k <= 5 && (opts.rotate.Some? ==> opts.rotate.value % 90 == 0)
    requires RedrawnBelow(file, opts, enc, j).Err?
    ensures RedrawnBelow(file, opts, enc, k) == RedrawnBelow(file, opts, enc, j)
    decreases k - j
  {
    if j < k {
      FailureStays(file, opts, enc, j, k - 1);
    }
  }

  /** The canvas the redraw stages before the resize end on: a rotation
      turns the sides, a crop takes the crop's size, and filters and flips
      keep it. */
  function CroppedCanvas(file: ImageFile, opts: ConversionOptions): Dims
    requires opts.rotate.Some? ==> opts.rotate.value % 90 == 0
  {
    var turned := if opts.rotate.Some? && opts.rotate.value != 0
                  then RotatedDims(file.width, file.height, opts.rotate.value) else Dims(file.width, file.height);
    if opts.crop.Some? then Dims(opts.crop.value.width, opts.crop.value.height) else turned
  }

  /** The canvas the redraw stages end on, from the options alone: the
      cropped canvas, then `ResizeCanvas` of it when the resize runs. */
  function PlannedCanvas(file: ImageFile, opts: ConversionOptions): Dims
    requires opts.rotate.Some? ==> opts.rotate.value % 90 == 0
  {
    var cropped := CroppedCanvas(file, opts);
    if ResizeRuns(opts) then ResizeCanvas(cropped.width, cropped.height, ResizeRequestOf(opts)) else cropped
  }

  /** Whether one of the stages before the resize redraws the file. */
  predicate RedrawsBeforeResize(opts: ConversionOptions) {
    opts.filters.Some? || (opts.rotate.Some? && opts.rotate.value != 0)
    || (opts.flip.Some? && opts.flip.value != NoFlip) || opts.crop.Some?
  }

  /** The four stages before the resize end on the cropped canvas with the
      file's name and type, encoded at 0.95 when one of them ran, and leave
      the file alone when none is set. */
  lemma BeforeResize(file: ImageFile, opts: ConversionOptions, enc: Encoder)
    requires opts.rotate.Some? ==> opts.rotate.value % 90 == 0
    ensures RedrawnBelow(file, opts, enc, 4).Ok? ==>
      var f := RedrawnBelow(file, opts, enc, 4).value;
      Same(f, file, CroppedCanvas(file, opts))
      && (RedrawsBeforeResize(opts) ==>
            Some(f.size) == enc(Some(0.95), CroppedCanvas(file, opts).width, CroppedCanvas(file, opts).height))
    ensures !RedrawsBeforeResize(opts) ==> RedrawnBelow(file, opts, enc, 4) == Ok(file)
  {
    var turned := if opts.rotate.Some? && opts.rotate.value != 0
                  then RotatedDims(file.width, file.height, opts.rotate.value) else Dims(file.width, file.height);
    var cropped := CroppedCanvas(file, opts);
    var q := Some(0.95);
    var r1 := RedrawnBelow(file, opts, enc, 1);
    assert RedrawnBelow(file, opts, enc, 0) == Ok(file);
    assert r1 == StageResult(0, file, opts, enc);
    var ran1 := opts.filters.Some?;
    assert r1.Ok? ==> Same(r1.value, file, Dims(file.width, file.height)) && (ran1 ==> Some(r1.value.size) == enc(q, file.width, file.height));
    assert !ran1 ==> r1 == Ok(file);
    var r2 := RedrawnBelow(file, opts, enc, 2);
    var ran2 := ran1 || (opts.rotate.Some? && opts.rotate.value != 0);
    if r1.Ok? {
      assert r2 == StageResult(1, r1.value, opts, enc);
    } else {
      assert r2.Err?;
    }
    assert r2.Ok? ==> Same(r2.value, file, turned) && (ran2 ==> Some(r2.value.size) == enc(q, turned.width, turned.height));
    assert !ran2 ==> r2 == Ok(file);
    var r3 := RedrawnBelow(file, opts, enc, 3);
    var ran3 := ran2 || (opts.flip.Some? && opts.flip.value != NoFlip);
    if r2.Ok? {
      assert r3 == StageResult(2, r2.value, opts, enc);
    } else {
      assert r3.Err?;
    }
    assert r3.Ok? ==> Same(r3.value, file, turned) && (ran3 ==> Some(r3.value.size) == enc(q, turned.width, turned.height));
    assert !ran3 ==> r3 == Ok(file);
    var r4 := RedrawnBelow(file, opts, enc, 4);
    var ran4 := ran3 || opts.crop.Some?;
    if r3.Ok? {
      assert r4 == StageResult(3, r3.value, opts, enc);
    } else {
      assert r4.Err?;
    }
    assert r4.Ok? ==> Same(r4.value, file, cropped) && (ran4 ==> Some(r4.value.size) == enc(q, cropped.width, cropped.height));
    assert !ran4 ==> r4 == Ok(file);
  }

  /** What the redraw stages make of a file: the planned canvas with the
      file's name and type, a resized file encoded at quality 0.9 and any
      other redrawn one at 0.95, and the file itself when no stage is
      planned. */
  lemma RedrawnCanvas(file: ImageFile, opts: ConversionOptions, enc: Encoder, show: real -> string)
    requires opts.rotate.Some? ==> opts.rotate.value % 90 == 0
    ensures Redrawn(file, opts, enc).Ok? ==>
      var f := Redrawn(file, opts, enc).value;
      Dims(f.width, f.height) == PlannedCanvas(file, opts) && f.name == file.name && f.mime == file.mime
    ensures Redrawn(file, opts, enc).Ok? && ResizeRuns(opts) ==>
      Some(Redrawn(file, opts, enc).value.size) == enc(Some(0.9), PlannedCanvas(file, opts).width, PlannedCanvas(file, opts).height)
    ensures Redrawn(file, opts, enc).Ok? && !ResizeRuns(opts) && PlannedBelow(opts, show, 5) != [] ==>
      Some(Redrawn(file, opts, enc).value.size) == enc(Some(0.95), PlannedCanvas(file, opts).width, PlannedCanvas(file, opts).height)
    ensures PlannedBelow(opts, show, 5) == [] ==> Redrawn(file, opts, enc) == Ok(file)
  {
    var r4 := RedrawnBelow(file, opts, enc, 4);
    BeforeResize(file, opts, enc);
    if r4.Ok? {
      assert Redrawn(file, opts, enc) == StageResult(4, r4.value, opts, enc);
    } else {
      assert Redrawn(file, opts, enc).Err?;
    }
    if PlannedBelow(opts, show, 5) == [] {
      NothingPlanned(opts, show);
    } else if !ResizeRuns(opts) {
      PlannedBelowMembers(opts, show, 5);
      var s := PlannedBelow(opts, show, 5)[0];
      assert s in PlannedBelow(opts, show, 5);
    }
  }

  /** `f` has the canvas `d` and the name and type of `file`. */
  predicate Same(f: ImageFile, file: ImageFile, d: Dims) {
    f.name == file.name && f.mime == file.mime && Dims(f.width, f.height) == d
  }

  /** With nothing planned before the compression, no redraw stage runs. */
  lemma NothingPlanned(opts: ConversionOptions, show: real -> string)
    requires PlannedBelow(opts, show, 5) == []
    ensures opts.filters.None? && !(opts.rotate.Some? && opts.rotate.value != 0)
    ensures !(opts.flip.Some? && opts.flip.value != NoFlip) && opts.crop.None? && !ResizeRuns(opts)
  {
    PlannedBelowMembers(opts, show, 5);
    assert StepAt(opts, show, 0).None? && StepAt(opts, show, 1).None? && StepAt(opts, show, 2).None?;
    assert StepAt(opts, show, 3).None? && StepAt(opts, show, 4).None?;
  }

  /** The redraw stages of `convertAndCompressImage` (imageProcessor.ts:636-666):
      filters, rotation, flip, crop and resize, each run only when the
      options call for it, each on the file the one before produced. */
  method RedrawStages(file: ImageFile, opts: ConversionOptions, enc: Encoder, show: real -> string)
    returns (r: Result<ImageFile>, steps: seq<Step>)
    requires opts.rotate.Some? ==> opts.rotate.value % 90 == 0
    ensures r == Redrawn(file, opts, enc)
    ensures r.Ok? ==> steps == PlannedBelow(opts, show, 5)
    ensures r.Ok? ==> r.value.name == file.name && r.value.mime == file.mime
    ensures r.Err? ==> steps != [] && steps <= PlannedBelow(opts, show, 5)
  {
    var processed := file;
    steps := [];
    PlannedBelowPrefix(opts, show, 1, 5);
    PlannedBelowPrefix(opts, show, 2, 5);
    PlannedBelowPrefix(opts, show, 3, 5);
    PlannedBelowPrefix(opts, show, 4, 5);

    var res, step := FilterStage(processed, opts, enc, show);
    steps := steps + step;
    assert res == RedrawnBelow(file, opts, enc, 1);
    if res.Err? {
      FailureStays(file, opts, enc, 1, 5);
      return Err(res.error), steps;
    }
    processed := res.value;

    res, step := RotateStage(processed, opts, enc, show);
    steps := steps + step;
    assert res == RedrawnBelow(file, opts, enc, 2);
    if res.Err? {
      FailureStays(file, opts, enc, 2, 5);
      return Err(res.error), steps;
    }
    processed := res.value;

    res, step := FlipStage(processed, opts, enc, show);
    steps := steps + step;
    assert res == RedrawnBelow(file, opts, enc, 3);
    if res.Err? {
      FailureStays(file, opts, enc, 3, 5);
      return Err(res.error), steps;
    }
    processed := res.value;

    res, step := CropStage(processed, opts, enc, show);
    steps := steps + step;
    assert res == RedrawnBelow(file, opts, enc, 4);
    if res.Err? {
      FailureStays(file, opts, enc, 4, 5);
      return Err(res.error), steps;
    }
    processed := res.value;

    res, step := ResizeStage(processed, opts, enc, show);
    steps := steps + step;
    assert res == RedrawnBelow(file, opts, enc, 5);
    if res.Err? {
      return Err(res.error), steps;
    }
    r := Ok(res.value);
  }

  /** The filter stage (imageProcessor.ts:639-641): runs when filters are
      given, and keeps the file's name and type. */
  method FilterStage(processed: ImageFile, opts: ConversionOptions, enc: Encoder, show: real -> string)
    returns (r: Result<ImageFile>, step: seq<Step>)
    requires opts.rotate.Some? ==> opts.rotate.value % 90 == 0
    ensures r == StageResult(0, processed, opts, enc)
    ensures step == Listed(StepAt(opts, show, 0))
    ensures r.Ok? ==> r.value.name == processed.name && r.value.mime == processed.mime
    ensures r.Err? ==> step != []
  {
    r, step := Ok(processed), [];
    if opts.filters.Some? {
      var filter := BuildFilterString(opts.filters.value, show);
      step := [FilterStep(filter)];
      r := ApplyImageFilters(processed, opts.filters.value, enc);
    }
  }

  /** The rotation stage (imageProcessor.ts:644-646): runs for a non-zero
      angle. */
  method RotateStage(processed: ImageFile, opts: ConversionOptions, enc: Encoder, show: real -> string)
    returns (r: Result<ImageFile>, step: seq<Step>)
    requires opts.rotate.Some? ==> opts.rotate.value % 90 == 0
    ensures r == StageResult(1, processed, opts, enc)
    ensures step == Listed(StepAt(opts, show, 1))
    ensures r.Ok? ==> r.value.name == processed.name && r.value.mime == processed.mime
    ensures r.Err? ==> step != []
  {
    r, step := Ok(processed), [];
    if opts.rotate.Some? && opts.rotate.value != 0 {
      step := [RotateStep(opts.rotate.value)];
      r := RotateImage(processed, opts.rotate.value, enc);
    }
  }

  /** The flip stage (imageProcessor.ts:649-651): runs for a direction other
      than `none`. */
  method FlipStage(processed: ImageFile, opts: ConversionOptions, enc: Encoder, show: real -> string)
    returns (r: Result<ImageFile>, step: seq<Step>)
    requires opts.rotate.Some? ==> opts.rotate.value % 90 == 0
    ensures r == StageResult(2, processed, opts, enc)
    ensures step == Listed(StepAt(opts, show, 2))
    ensures r.Ok? ==> r.value.name == processed.name && r.value.mime == processed.mime
    ensures r.Err? ==> step != []
  {
    r, step := Ok(processed), [];
    if opts.flip.Some? && opts.flip.value != NoFlip {
      step := [FlipStep(opts.flip.value)];
      r := FlipImage(processed, opts.flip.value, enc);
    }
  }

  /** The crop stage (imageProcessor.ts:654-656): runs when a crop is given. */
  method CropStage(processed: ImageFile, opts: ConversionOptions, enc: Encoder, show: real -> string)
    returns (r: Result<ImageFile>, step: seq<Step>)
    requires opts.rotate.Some? ==> opts.rotate.value % 90 == 0
    ensures r == StageResult(3, processed, opts, enc)
    ensures step == Listed(StepAt(opts, show, 3))
    ensures r.Ok? ==> r.value.name == processed.name && r.value.mime == processed.mime
    ensures r.Err? ==> step != []
  {
    r, step := Ok(processed), [];
    if opts.crop.Some? {
      step := [CropStep(opts.crop.value)];
      r := CropImage(processed, opts.crop.value, enc);
    }
  }

  /** The resize stage (imageProcessor.ts:659-666): runs when a maximum width
      or height is set, or a resize mode is given. */
  method ResizeStage(processed: ImageFile, opts: ConversionOptions, enc: Encoder, show: real -> string)
    returns (r: Result<ImageFile>, step: seq<Step>)
    requires opts.rotate.Some? ==> opts.rotate.value % 90 == 0
    ensures r == StageResult(4, processed, opts, enc)
    ensures step == Listed(StepAt(opts, show, 4))
    ensures r.Ok? ==> r.value.name == processed.name && r.value.mime == processed.mime
    ensures r.Err? ==> step != []
  {
    r, step := Ok(processed), [];
    if Truthy(opts.maxWidth) || Truthy(opts.maxHeight) || opts.resizeMode.Some? {
      step := [ResizeStep(ResizeRequestOf(opts))];
      r := ResizeImage(processed, ResizeRequestOf(opts), enc);
    }
  }

  /** The final conversion (imageProcessor.ts:685-691): made only without
      target compression and only when the detected format is not the
      requested one. */
  function Converted(f: ImageFile, opts: ConversionOptions, enc: Encoder): Result<ImageFile> {
    if !TargetEnabled(opts) && GetImageFormat(f) != opts.format
    then ConvertImageFormat(f, opts.format, opts.quality as real / 100.0, enc)
    else Ok(f)
  }

  /** What target compression resolves for `g`, along some run of its
      attempts that `Phases` lays out. */
  ghost predicate TargetCompressed(g: ImageFile, opts: ConversionOptions, enc: Encoder, sqrt: real -> real, r: Result<ImageFile>)
    requires TargetRuns(opts)
  {
    TargetBytes(opts.targetFileSize.value) > 0.0 &&
    exists t :: Phases(t, g, TargetBytes(opts.targetFileSize.value), opts.format, enc, sqrt) &&
                Resolved(t, g, TargetBytes(opts.targetFileSize.value), opts.format, r)
  }

  /** Target-size compression of the redrawn file (imageProcessor.ts:669-674):
      the result is named, typed and detected as the requested format. */
  method TargetStage(processed: ImageFile, opts: ConversionOptions, enc: Encoder, sqrt: real -> real)
    returns (r: Result<ImageFile>)
    requires TargetRuns(opts)
    ensures r.Ok? ==>
      r.value.name == ReplaceExtension(processed.name, FormatName(opts.format)) && r.value.mime == MimeType(opts.format) &&
      GetImageFormat(r.value) == Reported(opts.format)
    ensures TargetCompressed(processed, opts, enc, sqrt, r)
  {
    var targetSizeBytes := TargetBytes(opts.targetFileSize.value);
    var attempts;
    r, attempts := CompressToTargetSize(processed, targetSizeBytes, opts.format, enc, sqrt);
    assert Phases(attempts, processed, targetSizeBytes, opts.format, enc, sqrt);
    if r.Ok? {
      ReportedAfterRewrite(processed.name, opts.format, r.value.size, r.value.width, r.value.height);
    }
  }

  /** What the steps after the redraw stages make of the redrawn file `g`:
      what target compression resolves along some run of its attempts; or
      the library's file, or its failure, followed by the final conversion;
      or the final conversion alone. */
  ghost predicate Compressed(g: ImageFile, opts: ConversionOptions, enc: Encoder, sqrt: real -> real,
                             library: Library, r: Result<ImageFile>)
  {
    if TargetRuns(opts) then TargetCompressed(g, opts, enc, sqrt, r)
    else if opts.quality < 1 then
      match CompressImage(g, LibraryOptions(opts), library)
      case Err(e) => r == Err(e)
      case Ok(h) => r == Converted(h, opts, enc)
    else r == Converted(g, opts, enc)
  }

  /** What `convertAndCompressImage` settles to: the first redraw failure,
      or what the later steps make of the redrawn file. */
  ghost predicate Outcome(file: ImageFile, opts: ConversionOptions, enc: Encoder, sqrt: real -> real,
                          library: Library, r: Result<ImageFile>)
    requires opts.rotate.Some? ==> opts.rotate.value % 90 == 0
  {
    match Redrawn(file, opts, enc)
    case Err(_) => r == Redrawn(file, opts, enc)
    case Ok(g) => Compressed(g, opts, enc, sqrt, library, r)
  }

  /** Target-size compression has one outcome for a given file, options,
      encoder and square root. */
  lemma TargetCompressedDetermined(g: ImageFile, opts: ConversionOptions, enc: Encoder, sqrt: real -> real,
                                   r1: Result<ImageFile>, r2: Result<ImageFile>)
    requires TargetRuns(opts)
    requires TargetCompressed(g, opts, enc, sqrt, r1) && TargetCompressed(g, opts, enc, sqrt, r2)
    ensures r1 == r2
  {
    var target := TargetBytes(opts.targetFileSize.value);
    var t :| Phases(t, g, target, opts.format, enc, sqrt) && Resolved(t, g, target, opts.format, r1);
    var u :| Phases(u, g, target, opts.format, enc, sqrt) && Resolved(u, g, target, opts.format, r2);
    CompressionDetermined(t, u, g, target, opts.format, enc, sqrt, r1, r2);
  }

  /** `convertAndCompressImage` has one outcome for a given file, options,
      encoder, square root and library: `Outcome` leaves it no choice. */
  lemma OutcomeDetermined(file: ImageFile, opts: ConversionOptions, enc: Encoder, sqrt: real -> real,
                          library: Library, r1: Result<ImageFile>, r2: Result<ImageFile>)
    requires opts.rotate.Some? ==> opts.rotate.value % 90 == 0
    requires Outcome(file, opts, enc, sqrt, library, r1) && Outcome(file, opts, enc, sqrt, library, r2)
    ensures r1 == r2
  {
    var redrawn := Redrawn(file, opts, enc);
    if redrawn.Ok? && TargetRuns(opts) {
      TargetCompressedDetermined(redrawn.value, opts, enc, sqrt, r1, r2);
    }
  }

  /** The steps after the redraw stages (imageProcessor.ts:668-692) on the
      redrawn file `processed`: target-size compression when it runs, or
      else the library when the quality is below 1, and then, unless target
      compression is enabled, a conversion exactly when the detected format
      is not the requested one. */
  method CompressStages(processed: ImageFile, opts: ConversionOptions, enc: Encoder, show: real -> string,
                        sqrt: real -> real, library: Library)
    returns (r: Result<ImageFile>, steps: seq<Step>)
    ensures r.Ok? ==> steps == Listed(StepAt(opts, show, 5)) || steps == Listed(StepAt(opts, show, 5)) + [Conversion(opts)]
    ensures r.Ok? && steps != Listed(StepAt(opts, show, 5)) ==> !TargetEnabled(opts)
    ensures r.Ok? && !(LibraryStep(LibraryOptions(opts)) in steps) ==>
      (steps == Listed(StepAt(opts, show, 5)) + [Conversion(opts)] <==> !TargetEnabled(opts) && GetImageFormat(processed) != opts.format)
    ensures r.Err? ==> steps != [] && steps <= Listed(StepAt(opts, show, 5)) + [Conversion(opts)]
    ensures r.Ok? && !TargetEnabled(opts) ==> GetImageFormat(r.value) == Reported(opts.format)
    ensures r.Ok? && TargetRuns(opts) ==>
      r.value.name == ReplaceExtension(processed.name, FormatName(opts.format)) && r.value.mime == MimeType(opts.format) &&
      GetImageFormat(r.value) == Reported(opts.format)
    ensures r.Ok? && TargetEnabled(opts) && !TargetRuns(opts) && 1 <= opts.quality ==> r == Ok(processed)
    ensures Compressed(processed, opts, enc, sqrt, library, r)
  {
    if TargetRuns(opts) {
      steps := [TargetStep(TargetBytes(opts.targetFileSize.value), opts.format)];
      r := TargetStage(processed, opts, enc, sqrt);
      return;
    }
    steps := [];
    var current := processed;
    if opts.quality < 1 {
      steps := [LibraryStep(LibraryOptions(opts))];
      var res := CompressImage(processed, LibraryOptions(opts), library);
      if res.Err? {
        return Err(res.error), steps;
      }
      current := res.value;
    }
    assert steps == Listed(StepAt(opts, show, 5));
    if !TargetEnabled(opts) && GetImageFormat(current) != opts.format {
      steps := steps + [Conversion(opts)];
    }
    r := Converted(current, opts, enc);
  }

  /** `convertAndCompressImage`. `enc` encodes every canvas the stages draw,
      `show` is JavaScript's number formatting, `sqrt` is `Math.sqrt`, and
      `library` is the image-compression library. The result is the one
      `Outcome` describes. On success every planned stage ran, in order,
      followed by a format conversion only when target compression is off;
      when no library step ran, that conversion happens exactly when the
      input's detected format differs from the requested one. On failure
      the stages started are a prefix of that sequence. Without target
      compression the result is detected as the requested format; with it,
      the result is named and typed for the requested format; with target
      compression enabled at a size of 0 or less and no library step, the
      result keeps the input's name and type, whatever format was asked
      for. */
  method ConvertAndCompress(file: ImageFile, opts: ConversionOptions, enc: Encoder, show: real -> string,
                            sqrt: real -> real, library: Library)
    returns (r: Result<ImageFile>, steps: seq<Step>)
    requires opts.rotate.Some? ==> opts.rotate.value % 90 == 0
    ensures r.Ok? ==> steps == Planned(opts, show) || steps == Planned(opts, show) + [Conversion(opts)]
    ensures r.Ok? && steps != Planned(opts, show) ==> !TargetEnabled(opts)
    ensures r.Ok? && !(LibraryStep(LibraryOptions(opts)) in steps) ==>
      (steps == Planned(opts, show) + [Conversion(opts)] <==> !TargetEnabled(opts) && GetImageFormat(file) != opts.format)
    ensures r.Err? ==> steps != [] && steps <= Planned(opts, show) + [Conversion(opts)]
    ensures r.Ok? && !TargetEnabled(opts) ==> GetImageFormat(r.value) == Reported(opts.format)
    ensures r.Ok? && TargetRuns(opts) ==>
      r.value.name == ReplaceExtension(file.name, FormatName(opts.format)) && r.value.mime == MimeType(opts.format) &&
      GetImageFormat(r.value) == Reported(opts.format)
    ensures r.Ok? && TargetEnabled(opts) && !TargetRuns(opts) && 1 <= opts.quality ==>
      r.value.name == file.name && r.value.mime == file.mime
    ensures Outcome(file, opts, enc, sqrt, library, r)
  {
    PlannedBelowPrefix(opts, show, 5, 6);
    var redrawn, redrawSteps := RedrawStages(file, opts, enc, show);
    if redrawn.Err? {
      return redrawn, redrawSteps;
    }
    SameFormat(redrawn.value, file);
    var rest;
    r, rest := CompressStages(redrawn.value, opts, enc, show, sqrt, library);
    steps := redrawSteps + rest;
    JoinSteps(opts, show, redrawSteps, rest);
  }

  /** The redraw steps followed by the later ones: the plan and its prefixes
      carry over, and a library step can only be among the later ones. */
  lemma JoinSteps(opts: ConversionOptions, show: real -> string, a: seq<Step>, b: seq<Step>)
    requires a == PlannedBelow(opts, show, 5)
    ensures b == Listed(StepAt(opts, show, 5)) ==> a + b == Planned(opts, show)
    ensures b == Listed(StepAt(opts, show, 5)) + [Conversion(opts)] ==> a + b == Planned(opts, show) + [Conversion(opts)]
    ensures b <= Listed(StepAt(opts, show, 5)) + [Conversion(opts)] ==> a + b <= Planned(opts, show) + [Conversion(opts)]
    ensures LibraryStep(LibraryOptions(opts)) in a + b <==> LibraryStep(LibraryOptions(opts)) in b
    ensures a + b == Planned(opts, show) <==> b == Listed(StepAt(opts, show, 5))
    ensures a + b == Planned(opts, show) + [Conversion(opts)] <==> b == Listed(StepAt(opts, show, 5)) + [Conversion(opts)]
  {
    PlannedBelowMembers(opts, show, 5);
    assert Planned(opts, show) == a + Listed(StepAt(opts, show, 5));
    assert Planned(opts, show) + [Conversion(opts)] == a + (Listed(StepAt(opts, show, 5)) + [Conversion(opts)]);
    if a + b == Planned(opts, show) {
      assert b == (a + b)[|a|..];
    }
    if a + b == Planned(opts, show) + [Conversion(opts)] {
      assert b == (a + b)[|a|..];
    }
  }

  // ---------------------------------------------------------------------
  // What the plan contains

  /** Rotation runs exactly for a non-zero angle, and flipping exactly for a
      direction other than `'none'`. */
  lemma RotateAndFlipPlanned(opts: ConversionOptions, show: real -> string)
    ensures forall d :: RotateStep(d) in Planned(opts, show) <==> opts.rotate == Some(d) && d != 0
    ensures forall dir :: FlipStep(dir) in Planned(opts, show) <==> opts.flip == Some(dir) && dir != NoFlip
  {
    PlannedExact(opts, show);
  }

  /** Resizing runs exactly when a maximum is truthy or a mode is set, and it
      is never asked for a width or height, so the crop-to-fill path of
      `resizeImage` is out of its reach. */
  lemma ResizePlanned(opts: ConversionOptions, show: real -> string)
    ensures forall req :: ResizeStep(req) in Planned(opts, show) <==> ResizeRuns(opts) && req == ResizeRequestOf(opts)
    ensures forall req :: ResizeStep(req) in Planned(opts, show) ==> !CropsToFill(req)
  {
    PlannedExact(opts, show);
  }

  /** Target-size compression runs exactly when it is enabled with a positive
      size, aiming at the size times 1024 (KB) or 1024·1024 (MB) bytes. */
  lemma TargetPlanned(opts: ConversionOptions, show: real -> string)
    ensures forall b, f :: TargetStep(b, f) in Planned(opts, show) <==>
      TargetRuns(opts) && f == opts.format && b == TargetBytes(opts.targetFileSize.value)
    ensures TargetRuns(opts) && opts.targetFileSize.value.unit == KB ==>
      TargetStep(opts.targetFileSize.value.size * 1024.0, opts.format) in Planned(opts, show)
    ensures TargetRuns(opts) && opts.targetFileSize.value.unit == MB ==>
      TargetStep(opts.targetFileSize.value.size * 1048576.0, opts.format) in Planned(opts, show)
  {
    PlannedExact(opts, show);
  }

  /** The library runs only when target compression does not and the quality
      is below 1, so never for a quality between 1 and 100; its size bound
      prefers a truthy `maxWidth` over `maxHeight`. */
  lemma LibraryPlanned(opts: ConversionOptions, show: real -> string)
    ensures forall o :: LibraryStep(o) in Planned(opts, show) <==>
      !TargetRuns(opts) && opts.quality < 1 && o == LibraryOptions(opts)
    ensures 1 <= opts.quality ==> forall o :: LibraryStep(o) !in Planned(opts, show)
    ensures Truthy(opts.maxWidth) ==> LibraryOptions(opts).maxWidthOrHeight == Some(opts.maxWidth.value)
  {
    PlannedExact(opts, show);
  }

  /** Enabling target compression with a size of 0 or less switches target
      compression off without switching the final conversion back on. */
  lemma NonPositiveTargetDoesNothing(opts: ConversionOptions, show: real -> string)
    requires TargetEnabled(opts) && opts.targetFileSize.value.size <= 0.0
    ensures forall b, f :: TargetStep(b, f) !in Planned(opts, show)
  {
    PlannedExact(opts, show);
  }

  /** An empty filter set still runs the filter stage, with the value
      `'none'`. */
  lemma EmptyFiltersStillRun(opts: ConversionOptions, show: real -> string)
    requires opts.filters == Some(Filters(None, None, None, None, None, None))
    ensures FilterStep("none") in Planned(opts, show)
  {
    PlannedExact(opts, show);
    assert Parts(opts.filters.value) == [];
  }
}
