/** `getDiff` as a function: the geometry defaults, the three checks that
    return debug data, the bare `isDiff` of a `FULL` comparison between a
    three-byte and a four-byte image, and the report built from the pixel
    walk. `stopOnDiff` turns a report with differences into a bare `isDiff`. */
module GetDiff {
  import opened Wrappers
  import opened Text
  import opened Common
  import opened AbstractImage
  import opened DiffPixels
  import opened DiffWalk
  import Arith

  /** The `debugData` of a rejected comparison. */
  datatype DebugData =
    | GeometryMismatch(geometry1: string, geometry2: string)
    | InvalidGeometry(geometry1: string, geometry2: string,
                      width1: string, width2: string, height1: string, height2: string)
    | InvalidCombo(compareType: string, bytesPerPixel1: nat, bytesPerPixel2: nat)
  {
    /** The `msg` entry. */
    function Msg(): string {
      match this
      case GeometryMismatch(_, _) => "Geometry mismatch"
      case InvalidGeometry(_, _, _, _, _, _) => "Invalid geometry"
      case InvalidCombo(_, _, _) => "Invalid image format and comparison type combo"
    }
  }

  /** The entries added when alpha is compared. */
  datatype AlphaReport = AlphaReport(deltaImageAlpha: seq<Byte>, img1Alpha: seq<Byte>, img2Alpha: seq<Byte>,
                                     diffPixelAlphaList: seq<(nat, nat)>)

  /** The dictionary of a comparison that reached the end. */
  datatype Report = Report(isDiff: bool, deltaImageRgb: seq<Byte>, width: int, height: int,
                           maxChannelDelta: nat, pixelDiffCount: nat, absDiffCount: nat,
                           diffPixelRgbList: seq<(nat, nat)>,
                           geometry1: Geometry, geometry2: Geometry, alpha: Option<AlphaReport>)

  /** The three shapes of the returned dictionary: with debug data, with
      `isDiff` only, or a full report. */
  datatype DiffResult = Invalid(debugData: DebugData) | Differs | Completed(report: Report) {
    predicate IsDiff() {
      !Completed? || report.isDiff
    }
  }

  /** The geometry `getDiff` works with: the whole image when none is
      given, else a copy. */
  function Window(img: Image, g: Option<Geometry>): (w: Geometry)
    ensures g.Some? ==> Equals(w, g)
    ensures g.None? ==> w == Geometry(0, 0, img.width, img.height)
  {
    if g.None? then Geometry(0, 0, img.width, img.height) else Copy(g.value)
  }

  /** The report after visiting `ps`. */
  function Summary(job: Job, ps: seq<Pixel>, collect: bool, colors: map<string, Color>): Report {
    Report(Count(ps) != 0, Paint(ps, Delta(RgbChannel), colors), job.g1.width, job.g1.height,
           MaxDelta(ps), Count(ps), AbsSum(ps), if collect then FailList(ps, RgbChannel) else [],
           job.g1, job.g2,
           if CompareAlpha(job) then
             Some(AlphaReport(Paint(ps, Delta(AlphaChannel), colors), Paint(ps, SourceAlpha1, colors),
                              Paint(ps, SourceAlpha2, colors), if collect then FailList(ps, AlphaChannel) else []))
           else None)
  }

  /** What `getDiff` may assume of its arguments: buffers that hold the
      declared pixels, and given geometries with no negative field. */
  predicate Callable(img1: Image, img2: Image, geometry1: Option<Geometry>, geometry2: Option<Geometry>) {
    && WellFormed(img1) && WellFormed(img2)
    && (geometry1.Some? ==> NonNegative(geometry1.value))
    && (geometry2.Some? ==> NonNegative(geometry2.value))
  }

  /** The job of a call, once its windows are fixed. */
  function JobOf(img1: Image, img2: Image, geometry1: Option<Geometry>, geometry2: Option<Geometry>,
                 compareType: CompareType): Job
  {
    Job(img1, img2, Window(img1, geometry1), Window(img2, geometry2), compareType)
  }

  /** The checks `getDiff` makes before the walk, in order: equal areas,
      both windows inside their images, a mask mode on a four-byte image,
      and for `FULL` both images with alpha or both without. They read no
      pixel data, so they are defined on every input, short buffers and
      negative window fields included. `None` means the walk starts. */
  function Checks(img1: Image, img2: Image, geometry1: Option<Geometry>, geometry2: Option<Geometry>,
                  compareType: CompareType): (r: Option<DiffResult>)
    ensures var job := JobOf(img1, img2, geometry1, geometry2, compareType);
      var valid := ValidateGeometry(img1, job.g1) && ValidateGeometry(img2, job.g2);
      var alphaMismatch := compareType == Full && (img1.BytesPerPixel() == 4) != (img2.BytesPerPixel() == 4);
      && (r.Some? && r.value.Invalid? && r.value.debugData.GeometryMismatch? <==> !IsAreaEqual(job.g1, job.g2))
      && (r.Some? && r.value.Invalid? && r.value.debugData.InvalidGeometry? <==> IsAreaEqual(job.g1, job.g2) && !valid)
      && (r.Some? && r.value.Invalid? && r.value.debugData.InvalidCombo? <==>
            IsAreaEqual(job.g1, job.g2) && valid && !ComboValid(compareType, img1, img2))
      && (r.Some? && r.value.Differs? <==>
            IsAreaEqual(job.g1, job.g2) && valid && ComboValid(compareType, img1, img2) && alphaMismatch)
    ensures r.Some? ==> !r.value.Completed? && r.value.IsDiff()
    ensures r.None? && Callable(img1, img2, geometry1, geometry2) ==>
      Scannable(JobOf(img1, img2, geometry1, geometry2, compareType))
  {
    var job := JobOf(img1, img2, geometry1, geometry2, compareType);
    var g1, g2 := job.g1, job.g2;
    if !IsAreaEqual(g1, g2) then
      Some(Invalid(GeometryMismatch(ToString(g1), ToString(g2))))
    else if !ValidateGeometry(img1, g1) || !ValidateGeometry(img2, g2) then
      Some(Invalid(InvalidGeometry(ToString(g1), ToString(g2), IntToString(img1.width), IntToString(img2.width),
                                   IntToString(img1.height), IntToString(img2.height))))
    else if !ComboValid(compareType, img1, img2) then
      Some(Invalid(InvalidCombo(compareType.Name(), img1.BytesPerPixel(), img2.BytesPerPixel())))
    else if compareType == Full && (img1.BytesPerPixel() == 4) != (img2.BytesPerPixel() == 4) then
      Some(Differs)
    else
      None
  }

  /** The whole call: the checks, then, on well-formed images, the walk. */
  function Diff(img1: Image, img2: Image, geometry1: Option<Geometry>, geometry2: Option<Geometry>,
                stopOnDiff: bool, compareType: CompareType, collect: bool, colors: map<string, Color>): (r: DiffResult)
    requires Callable(img1, img2, geometry1, geometry2)
    ensures var job := JobOf(img1, img2, geometry1, geometry2, compareType);
      && (r.Invalid? && r.debugData.GeometryMismatch? <==> !IsAreaEqual(job.g1, job.g2))
      && (r.Invalid? && r.debugData.InvalidGeometry? <==>
            IsAreaEqual(job.g1, job.g2) && !(ValidateGeometry(img1, job.g1) && ValidateGeometry(img2, job.g2)))
      && (r.Invalid? && r.debugData.InvalidCombo? <==>
            IsAreaEqual(job.g1, job.g2) && ValidateGeometry(img1, job.g1) && ValidateGeometry(img2, job.g2)
            && !ComboValid(compareType, img1, img2))
      && (r.Completed? ==> Scannable(job))
    ensures r.Invalid? ==> r.IsDiff() && r == Checks(img1, img2, geometry1, geometry2, compareType).value
    ensures !stopOnDiff ==> (r.Completed? <==> Checks(img1, img2, geometry1, geometry2, compareType).None?)
    ensures r.Completed? ==> (r.IsDiff() <==> r.report.pixelDiffCount > 0)
    ensures r.Completed? && compareType == Full ==>
      (img1.BytesPerPixel() == 4 <==> img2.BytesPerPixel() == 4)
    ensures r.Completed? ==>
      && r.report.geometry1 == Window(img1, geometry1) && r.report.geometry2 == Window(img2, geometry2)
      && r.report.width == r.report.geometry1.width && r.report.height == r.report.geometry1.height
      && |r.report.deltaImageRgb| == 3 * (r.report.height * r.report.width)
      && (r.report.alpha.Some? <==> compareType == Full && img1.BytesPerPixel() == 4)
    ensures r.Completed? && stopOnDiff ==> !r.report.isDiff
    ensures r.Completed? && !collect ==>
      r.report.diffPixelRgbList == [] && (r.report.alpha.Some? ==> r.report.alpha.value.diffPixelAlphaList == [])
  {
    match Checks(img1, img2, geometry1, geometry2, compareType)
    case Some(rejected) => rejected
    case None =>
      var job := JobOf(img1, img2, geometry1, geometry2, compareType);
      var ps := Walk(job);
      RowsLength(job, job.g1.height);
      if stopOnDiff && Count(ps) > 0 then Differs
      else Completed(Summary(job, ps, collect, colors))
  }

  /** The debug data names both windows as `str` prints them, and for an
      invalid geometry both images' sizes. */
  lemma ChecksDebugData(img1: Image, img2: Image, geometry1: Option<Geometry>, geometry2: Option<Geometry>,
                        compareType: CompareType)
    requires Checks(img1, img2, geometry1, geometry2, compareType).Some?
    ensures var r := Checks(img1, img2, geometry1, geometry2, compareType).value;
      var g1, g2 := Window(img1, geometry1), Window(img2, geometry2);
      && (r.Invalid? && !r.debugData.InvalidCombo? ==>
            r.debugData.geometry1 == ToString(g1) && r.debugData.geometry2 == ToString(g2))
      && (r.Invalid? && r.debugData.InvalidGeometry? ==>
            r.debugData.width1 == IntToString(img1.width) && r.debugData.height2 == IntToString(img2.height))
      && (r.Invalid? && r.debugData.InvalidCombo? ==>
            r.debugData.compareType == compareType.Name()
            && r.debugData.bytesPerPixel1 == img1.BytesPerPixel() && r.debugData.bytesPerPixel2 == img2.BytesPerPixel())
      && (r.Invalid? && r.debugData.InvalidCombo? ==>
            compareType in {AlphaHi1, AlphaLo1, AlphaHi2, AlphaLo2})
  {
  }

  /** With `stopOnDiff` the call gives a bare `isDiff` exactly when the full
      comparison would report a difference, and the same report otherwise. */
  lemma DiffStopOnDiff(img1: Image, img2: Image, geometry1: Option<Geometry>, geometry2: Option<Geometry>,
                       compareType: CompareType, collect: bool, colors: map<string, Color>)
    requires Callable(img1, img2, geometry1, geometry2)
    ensures var full := Diff(img1, img2, geometry1, geometry2, false, compareType, collect, colors);
      Diff(img1, img2, geometry1, geometry2, true, compareType, collect, colors)
        == if full.Completed? && full.report.isDiff then Differs else full
  {
  }

  /** The results of the four checks before the walk, each once the earlier
      ones have passed. */
  lemma DiffRejected(img1: Image, img2: Image, geometry1: Option<Geometry>, geometry2: Option<Geometry>,
                     stopOnDiff: bool, compareType: CompareType, collect: bool, colors: map<string, Color>)
    requires Callable(img1, img2, geometry1, geometry2)
    ensures var job := JobOf(img1, img2, geometry1, geometry2, compareType);
      var r := Diff(img1, img2, geometry1, geometry2, stopOnDiff, compareType, collect, colors);
      var g1, g2 := job.g1, job.g2;
      var valid := ValidateGeometry(img1, g1) && ValidateGeometry(img2, g2);
      && (!IsAreaEqual(g1, g2) ==> r == Invalid(GeometryMismatch(ToString(g1), ToString(g2))))
      && (IsAreaEqual(g1, g2) && !valid ==>
            r == Invalid(InvalidGeometry(ToString(g1), ToString(g2), IntToString(img1.width), IntToString(img2.width),
                                         IntToString(img1.height), IntToString(img2.height))))
      && (IsAreaEqual(g1, g2) && valid && !ComboValid(compareType, img1, img2) ==>
            r == Invalid(InvalidCombo(compareType.Name(), img1.BytesPerPixel(), img2.BytesPerPixel())))
      && (IsAreaEqual(g1, g2) && valid && ComboValid(compareType, img1, img2) && compareType == Full
          && (img1.BytesPerPixel() == 4) != (img2.BytesPerPixel() == 4)
          ==> r == Differs)
  {
    var c := Checks(img1, img2, geometry1, geometry2, compareType);
    assert c.Some? ==> Diff(img1, img2, geometry1, geometry2, stopOnDiff, compareType, collect, colors) == c.value;
  }

  /** Once every check has passed, the call is the walk of its job: a bare
      difference under `stopOnDiff` when a cell differs, the full report
      otherwise. */
  lemma DiffPassed(img1: Image, img2: Image, geometry1: Option<Geometry>, geometry2: Option<Geometry>,
                   stopOnDiff: bool, compareType: CompareType, collect: bool, colors: map<string, Color>)
    requires Callable(img1, img2, geometry1, geometry2)
    requires var job := JobOf(img1, img2, geometry1, geometry2, compareType);
      && IsAreaEqual(job.g1, job.g2) && ValidateGeometry(img1, job.g1) && ValidateGeometry(img2, job.g2)
      && ComboValid(compareType, img1, img2)
      && !(compareType == Full && (img1.BytesPerPixel() == 4) != (img2.BytesPerPixel() == 4))
    ensures var job := JobOf(img1, img2, geometry1, geometry2, compareType);
      && Scannable(job)
      && Diff(img1, img2, geometry1, geometry2, stopOnDiff, compareType, collect, colors)
           == if stopOnDiff && Count(Walk(job)) > 0 then Differs else Completed(Summary(job, Walk(job), collect, colors))
  {
  }

  /** A completed comparison reports on the whole walk of its job. */
  lemma DiffReport(img1: Image, img2: Image, geometry1: Option<Geometry>, geometry2: Option<Geometry>,
                   stopOnDiff: bool, compareType: CompareType, collect: bool, colors: map<string, Color>)
    requires Callable(img1, img2, geometry1, geometry2)
    requires Diff(img1, img2, geometry1, geometry2, stopOnDiff, compareType, collect, colors).Completed?
    ensures var job := JobOf(img1, img2, geometry1, geometry2, compareType);
      && Scannable(job)
      && Diff(img1, img2, geometry1, geometry2, stopOnDiff, compareType, collect, colors).report
           == Summary(job, Walk(job), collect, colors)
  {
  }

  /** `isDiff` in a report holds exactly when a compared window cell
      differs. */
  lemma ReportIsDiff(job: Job, collect: bool, colors: map<string, Color>)
    requires Scannable(job)
    ensures var rep := Summary(job, Walk(job), collect, colors);
      rep.isDiff <==> exists j: nat, i: nat | j < job.g1.height && i < job.g1.width :: Eval(job, j, i).Differs()
  {
    CountZero(Walk(job));
    ReportDiffers(job);
  }

  /** A report counts at most one difference per window cell. */
  lemma ReportCountBound(job: Job, collect: bool, colors: map<string, Color>)
    requires Scannable(job)
    ensures var rep := Summary(job, Walk(job), collect, colors);
      rep.pixelDiffCount <= rep.height * rep.width
  {
    RowsLength(job, job.g1.height);
  }

  /** Every differing pixel adds between 1 and 4 * 255 to `absDiffCount`,
      the others nothing. */
  lemma ReportAbsBounds(job: Job, collect: bool, colors: map<string, Color>)
    requires Scannable(job)
    ensures var rep := Summary(job, Walk(job), collect, colors);
      rep.pixelDiffCount <= rep.absDiffCount <= 1020 * rep.pixelDiffCount
  {
    WalkBounded(job);
    CountAbsBounds(Walk(job));
  }

  /** `maxChannelDelta` is a byte, and zero exactly when nothing differs. */
  lemma ReportMaxBounds(job: Job, collect: bool, colors: map<string, Color>)
    requires Scannable(job)
    ensures var rep := Summary(job, Walk(job), collect, colors);
      && rep.maxChannelDelta <= 255
      && (rep.maxChannelDelta == 0 <==> rep.pixelDiffCount == 0)
  {
    WalkBounded(job);
    MaxDeltaBounds(Walk(job));
  }

  /** Some position of the walk differs exactly when some window cell
      does. */
  lemma ReportDiffers(job: Job)
    requires Scannable(job)
    ensures (exists k | 0 <= k < |Walk(job)| :: Walk(job)[k].Differs())
      <==> exists j: nat, i: nat | j < job.g1.height && i < job.g1.width :: Eval(job, j, i).Differs()
  {
    if exists j: nat, i: nat | j < job.g1.height && i < job.g1.width :: Eval(job, j, i).Differs() {
      CellDiffers(job);
    }
    if exists k | 0 <= k < |Walk(job)| :: Walk(job)[k].Differs() {
      PositionDiffers(job);
    }
  }

  lemma CellDiffers(job: Job)
    requires Scannable(job)
    requires exists j: nat, i: nat | j < job.g1.height && i < job.g1.width :: Eval(job, j, i).Differs()
    ensures exists k | 0 <= k < |Walk(job)| :: Walk(job)[k].Differs()
  {
    var j: nat, i: nat :| j < job.g1.height && i < job.g1.width && Eval(job, j, i).Differs();
    var k := CellAt(job, j, i);
    assert Walk(job)[k].Differs();
  }

  lemma PositionDiffers(job: Job)
    requires Scannable(job)
    requires exists k | 0 <= k < |Walk(job)| :: Walk(job)[k].Differs()
    ensures exists j: nat, i: nat | j < job.g1.height && i < job.g1.width :: Eval(job, j, i).Differs()
  {
    var k :| 0 <= k < |Walk(job)| && Walk(job)[k].Differs();
    var j, i := WalkCell(job, k);
    assert Eval(job, j, i).Differs();
  }

  /** The fail lists of a report are in strictly increasing offset of the
      first image, hence without repeats, and the RGB list has at most one
      entry per differing pixel. */
  lemma ReportFailListsSorted(job: Job, colors: map<string, Color>)
    requires Scannable(job)
    ensures var rep := Summary(job, Walk(job), true, colors);
      && StrictlySorted(rep.diffPixelRgbList)
      && |rep.diffPixelRgbList| <= rep.pixelDiffCount
      && (rep.alpha.Some? ==> StrictlySorted(rep.alpha.value.diffPixelAlphaList))
  {
    var ps := Walk(job);
    WalkIncreasing(job);
    FailListSorted(ps, RgbChannel);
    FailListSorted(ps, AlphaChannel);
    FailListLength(ps, RgbChannel);
  }

  /** The RGB fail list of a report names the offsets of exactly the cells
      whose colour differs. */
  lemma ReportFailListMembers(job: Job, colors: map<string, Color>, e: (nat, nat))
    requires Scannable(job)
    ensures var rep := Summary(job, Walk(job), true, colors);
      e in rep.diffPixelRgbList <==>
        exists j: nat, i: nat | j < job.g1.height && i < job.g1.width ::
          Eval(job, j, i).DiffersIn(RgbChannel) && Eval(job, j, i).Entry() == e
  {
    FailListMembers(Walk(job), RgbChannel, e);
    if e in FailList(Walk(job), RgbChannel) {
      EntryFromPosition(job, e);
    }
    if exists j: nat, i: nat | j < job.g1.height && i < job.g1.width ::
         Eval(job, j, i).DiffersIn(RgbChannel) && Eval(job, j, i).Entry() == e {
      var j: nat, i: nat :| j < job.g1.height && i < job.g1.width
        && Eval(job, j, i).DiffersIn(RgbChannel) && Eval(job, j, i).Entry() == e;
      EntryFromCell(job, e, j, i);
    }
  }

  lemma EntryFromPosition(job: Job, e: (nat, nat))
    requires Scannable(job)
    requires exists k | 0 <= k < |Walk(job)| :: Walk(job)[k].DiffersIn(RgbChannel) && Walk(job)[k].Entry() == e
    ensures exists j: nat, i: nat | j < job.g1.height && i < job.g1.width ::
      Eval(job, j, i).DiffersIn(RgbChannel) && Eval(job, j, i).Entry() == e
  {
    var k :| 0 <= k < |Walk(job)| && Walk(job)[k].DiffersIn(RgbChannel) && Walk(job)[k].Entry() == e;
    var j, i := WalkCell(job, k);
    assert Eval(job, j, i).DiffersIn(RgbChannel) && Eval(job, j, i).Entry() == e;
  }

  lemma EntryFromCell(job: Job, e: (nat, nat), j: nat, i: nat)
    requires Scannable(job) && j < job.g1.height && i < job.g1.width
    requires Eval(job, j, i).DiffersIn(RgbChannel) && Eval(job, j, i).Entry() == e
    ensures exists k | 0 <= k < |Walk(job)| :: Walk(job)[k].DiffersIn(RgbChannel) && Walk(job)[k].Entry() == e
  {
    var k := CellAt(job, j, i);
    assert Walk(job)[k].DiffersIn(RgbChannel) && Walk(job)[k].Entry() == e;
  }

  /** The RGB delta image of a report: pixel `k = j * width + i` is black
      where cell `(j, i)` shows no colour difference and carries the colour
      for its largest channel difference where it does. */
  lemma ReportDeltaImage(job: Job, collect: bool, colors: map<string, Color>, j: nat, i: nat, k: nat)
    requires Scannable(job) && j < job.g1.height && i < job.g1.width && k == j * job.g1.width + i
    ensures var rep := Summary(job, Walk(job), collect, colors);
      var p := Eval(job, j, i);
      && 3 * k + 3 <= |rep.deltaImageRgb|
      && PixelAt(rep.deltaImageRgb, 3, k)
           == (if p.DiffersIn(RgbChannel) then ColorFor(colors, p.Tint(RgbChannel)) else Black)
  {
    var ps := Walk(job);
    var k' := CellAt(job, j, i);
    PaintPixels(ps, Delta(RgbChannel), colors);
    assert PixelAt(Paint(ps, Delta(RgbChannel), colors), 3, k) == Chunk(ps[k], Delta(RgbChannel), colors);
  }

  /** The alpha images of a report that compares alpha: pixel
      `k = j * width + i` of each source alpha image is cell `(j, i)`'s alpha
      byte of that image, three times over, and the alpha delta image is
      black where the two alpha bytes agree and carries the colour for their
      difference where they do not. `DiffWalk.EvalAlpha` says which bytes of
      the images these are. */
  lemma ReportAlphaImages(job: Job, collect: bool, colors: map<string, Color>, j: nat, i: nat, k: nat)
    requires Scannable(job) && CompareAlpha(job)
    requires j < job.g1.height && i < job.g1.width && k == j * job.g1.width + i
    ensures var rep := Summary(job, Walk(job), collect, colors);
      var p := Eval(job, j, i);
      && rep.alpha.Some? && p.Compared? && p.alpha.Alphas?
      && 3 * k + 3 <= |rep.alpha.value.img1Alpha|
      && 3 * k + 3 <= |rep.alpha.value.img2Alpha|
      && 3 * k + 3 <= |rep.alpha.value.deltaImageAlpha|
      && PixelAt(rep.alpha.value.img1Alpha, 3, k) == [p.alpha.a1, p.alpha.a1, p.alpha.a1]
      && PixelAt(rep.alpha.value.img2Alpha, 3, k) == [p.alpha.a2, p.alpha.a2, p.alpha.a2]
      && PixelAt(rep.alpha.value.deltaImageAlpha, 3, k)
           == if p.alpha.a1 == p.alpha.a2 then Black else ColorFor(colors, Arith.Abs(p.alpha.a1 - p.alpha.a2))
  {
    var ps := Walk(job);
    var k' := CellAt(job, j, i);
    PaintPixels(ps, SourceAlpha1, colors);
    PaintPixels(ps, SourceAlpha2, colors);
    PaintPixels(ps, Delta(AlphaChannel), colors);
  }

  /** An image compared with itself over one window, in any mode its format
      allows, shows no difference: zero counters, empty list, black delta
      image. */
  lemma DiffSelf(img: Image, geometry: Option<Geometry>, stopOnDiff: bool, compareType: CompareType,
                 collect: bool, colors: map<string, Color>)
    requires Callable(img, img, geometry, geometry)
    requires ValidateGeometry(img, Window(img, geometry))
    requires ComboValid(compareType, img, img)
    ensures var r := Diff(img, img, geometry, geometry, stopOnDiff, compareType, collect, colors);
      && r.Completed? && !r.IsDiff()
      && r.report.pixelDiffCount == 0 && r.report.absDiffCount == 0 && r.report.maxChannelDelta == 0
      && r.report.diffPixelRgbList == []
      && forall k | 0 <= k < r.report.width * r.report.height :: 3 * k + 3 <= |r.report.deltaImageRgb|
           && PixelAt(r.report.deltaImageRgb, 3, k) == Black
  {
    var job := JobOf(img, img, geometry, geometry, compareType);
    var ps := Walk(job);
    SelfWalk(job);
    CountZero(ps);
    CountAbsBounds(ps);
    MaxDeltaBounds(ps);
    FailListLength(ps, RgbChannel);
    RowsLength(job, job.g1.height);
    assert job.g1.width * job.g1.height == |ps|;
    PaintPixels(ps, Delta(RgbChannel), colors);
  }
}
