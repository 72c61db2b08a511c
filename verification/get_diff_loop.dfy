/** `getDiff` as the source runs it: four zero-filled 3-byte-per-pixel
    buffers allocated up front, two nested loops over the window, running
    totals updated cell by cell, and an early return under `stopOnDiff`.
    The method computes exactly what the `Diff` function describes. */
module DiffLoop {
  import opened Wrappers
  import opened Text
  import opened Common
  import opened AbstractImage
  import opened DiffPixels
  import opened DiffWalk
  import opened GetDiff
  import Arith

  /** `bytearray(b'\x00' * n)`. */
  function Zeros(n: nat): (z: seq<Byte>)
    ensures |z| == n
  {
    seq(n, k requires 0 <= k < n => 0)
  }

  /** The running state of the loops. */
  datatype Totals = Totals(rgb: seq<Byte>, alphaDelta: seq<Byte>, alpha1: seq<Byte>, alpha2: seq<Byte>,
                           maxDelta: nat, count: nat, abs: nat,
                           rgbList: seq<(nat, nat)>, alphaList: seq<(nat, nat)>)

  /** A buffer of `total` pixels of which the first `|done|` are written. */
  predicate Painted(buf: seq<Byte>, done: seq<Pixel>, plane: Plane, total: nat, colors: map<string, Color>)
    requires |done| <= total
  {
    buf == Paint(done, plane, colors) + Zeros(3 * (total - |done|))
  }

  /** The state after visiting `done`: every total is its fold over `done`. */
  predicate Tracks(acc: Totals, done: seq<Pixel>, total: nat, collect: bool, colors: map<string, Color>) {
    && |done| <= total
    && Painted(acc.rgb, done, Delta(RgbChannel), total, colors)
    && Painted(acc.alphaDelta, done, Delta(AlphaChannel), total, colors)
    && Painted(acc.alpha1, done, SourceAlpha1, total, colors)
    && Painted(acc.alpha2, done, SourceAlpha2, total, colors)
    && acc.maxDelta == MaxDelta(done) && acc.count == Count(done) && acc.abs == AbsSum(done)
    && acc.rgbList == (if collect then FailList(done, RgbChannel) else [])
    && acc.alphaList == (if collect then FailList(done, AlphaChannel) else [])
  }

  /** Writing pixel `p`'s chunk at pixel number `|done|` of a partly painted
      buffer paints one pixel more. */
  lemma Written(buf: seq<Byte>, done: seq<Pixel>, p: Pixel, plane: Plane, total: nat,
                colors: map<string, Color>, o: nat, c: seq<Byte>)
    requires |done| < total && Painted(buf, done, plane, total, colors)
    requires o == 3 * |done| && c == Chunk(p, plane, colors)
    ensures o + 3 <= |buf| && Painted(buf[..o] + c + buf[o + 3..], done + [p], plane, total, colors)
  {
    var front := Paint(done, plane, colors);
    var rest := Zeros(3 * (total - |done| - 1));
    assert (done + [p])[..|done|] == done;
    assert Paint(done + [p], plane, colors) == front + c;
    assert Zeros(3 * (total - |done|)) == Black + rest;
    assert buf == front + (Black + rest);
    assert buf[..o] == front;
    assert buf[o + 3..] == rest;
  }

  /** Leaving a black pixel unwritten paints it too: the buffer starts as
      zeros. */
  lemma Untouched(buf: seq<Byte>, done: seq<Pixel>, p: Pixel, plane: Plane, total: nat,
                  colors: map<string, Color>)
    requires |done| < total && Painted(buf, done, plane, total, colors)
    requires Chunk(p, plane, colors) == Black
    ensures Painted(buf, done + [p], plane, total, colors)
  {
    Written(buf, done, p, plane, total, colors, 3 * |done|, Black);
    assert buf[..3 * |done|] + Black + buf[3 * |done| + 3..] == buf;
  }

  /** Once every pixel is visited, each buffer is exactly its painting. */
  lemma Finished(acc: Totals, done: seq<Pixel>, total: nat, collect: bool, colors: map<string, Color>)
    requires Tracks(acc, done, total, collect, colors) && |done| == total
    ensures acc.rgb == Paint(done, Delta(RgbChannel), colors)
    ensures acc.alphaDelta == Paint(done, Delta(AlphaChannel), colors)
    ensures acc.alpha1 == Paint(done, SourceAlpha1, colors)
    ensures acc.alpha2 == Paint(done, SourceAlpha2, colors)
  {
    assert Zeros(0) == [];
    assert Paint(done, Delta(RgbChannel), colors) + [] == Paint(done, Delta(RgbChannel), colors);
    assert Paint(done, Delta(AlphaChannel), colors) + [] == Paint(done, Delta(AlphaChannel), colors);
    assert Paint(done, SourceAlpha1, colors) + [] == Paint(done, SourceAlpha1, colors);
    assert Paint(done, SourceAlpha2, colors) + [] == Paint(done, SourceAlpha2, colors);
  }

  /** The reads of the inner loop body: the two input offsets, the alpha
      mask test, and the absolute differences of the channels compared. */
  method Measure(job: Job, j: nat, i: nat) returns (p: Pixel)
    requires Scannable(job) && j < job.g1.height && i < job.g1.width
    ensures p == Eval(job, j, i)
  {
    var img1, img2, t := job.img1, job.img2, job.compareType;
    var d1, d2 := img1.data, img2.data;
    OffsetsInBuffer(job, j, i);
    var inputPixelIndex1: nat := InputIndex(img1, job.g1, j, i);
    var inputPixelIndex2: nat := InputIndex(img2, job.g2, j, i);
    var o1, o2 := inputPixelIndex1, inputPixelIndex2;
    if (t == AlphaHi1 && d1[o1 + 3] != 0xFF) || (t == AlphaLo1 && d1[o1 + 3] == 0x00)
       || (t == AlphaHi2 && d2[o2 + 3] != 0xFF) || (t == AlphaLo2 && d2[o2 + 3] == 0x00) {
      return Skipped;
    }
    var dr := Arith.Abs(d1[o1 + 0] as int - d2[o2 + 0]);
    var dg := Arith.Abs(d1[o1 + 1] as int - d2[o2 + 1]);
    var db := Arith.Abs(d1[o1 + 2] as int - d2[o2 + 2]);
    var alpha := NoAlpha;
    if CompareAlpha(job) {
      alpha := Alphas(d1[o1 + 3], d2[o2 + 3]);
    }
    return Compared(o1, o2, dr, dg, db, alpha);
  }

  /** The zero-filled buffers and zero totals the loops start from. */
  function Initial(total: nat): (t: Totals)
    ensures Tracks(t, [], total, false, map[]) && Tracks(t, [], total, true, map[])
  {
    Totals(Zeros(3 * total), Zeros(3 * total), Zeros(3 * total), Zeros(3 * total), 0, 0, 0, [], [])
  }

  /** `buf[3 * k : 3 * k + 3] = c`. */
  function Splice(buf: seq<Byte>, k: nat, c: Color): (r: seq<Byte>)
    requires 3 * k + 3 <= |buf|
    ensures |r| == |buf|
  {
    buf[..3 * k] + c + buf[3 * k + 3..]
  }

  /** The condition under which the loop body writes a buffer: a difference
      in the buffer's channel, or for the source alpha buffers a pixel
      compared with alpha. */
  predicate Writes(p: Pixel, plane: Plane) {
    match plane
    case Delta(ch) => p.DiffersIn(ch)
    case _ => p.Compared? && p.alpha.Alphas?
  }

  /** One buffer after the loop body: pixel `k` written with the pixel's
      chunk when the body writes that buffer, untouched otherwise. */
  function WritePlane(buf: seq<Byte>, p: Pixel, k: nat, plane: Plane, colors: map<string, Color>): (r: seq<Byte>)
    requires 3 * k + 3 <= |buf|
    ensures |r| == |buf|
  {
    if Writes(p, plane) then Splice(buf, k, Chunk(p, plane, colors)) else buf
  }

  /** Buffers long enough to take output pixel `k`. */
  predicate Room(acc: Totals, k: nat) {
    && 3 * k + 3 <= |acc.rgb| && 3 * k + 3 <= |acc.alphaDelta|
    && 3 * k + 3 <= |acc.alpha1| && 3 * k + 3 <= |acc.alpha2|
  }

  /** The inner loop body for a measured pixel at output pixel `k`: nothing
      for a skipped one; otherwise the source alpha bytes, the running
      maximum and sum, the count, and for each channel that differs its
      colour and its fail-list entry. */
  function Update(acc: Totals, p: Pixel, k: nat, collect: bool, colors: map<string, Color>): (next: Totals)
    requires Room(acc, k)
    ensures |next.rgb| == |acc.rgb| && |next.alphaDelta| == |acc.alphaDelta|
    ensures |next.alpha1| == |acc.alpha1| && |next.alpha2| == |acc.alpha2|
    ensures next.count == acc.count + (if p.Differs() then 1 else 0)
  {
    if p.Skipped? then acc
    else
      var da := p.Da();
      Totals(WritePlane(acc.rgb, p, k, Delta(RgbChannel), colors),
             WritePlane(acc.alphaDelta, p, k, Delta(AlphaChannel), colors),
             WritePlane(acc.alpha1, p, k, SourceAlpha1, colors),
             WritePlane(acc.alpha2, p, k, SourceAlpha2, colors),
             Arith.Max(Arith.Max(Arith.Max(Arith.Max(acc.maxDelta, p.dr), p.dg), p.db), da),
             acc.count + (if p.DiffersIn(RgbChannel) || p.DiffersIn(AlphaChannel) then 1 else 0),
             acc.abs + (p.dr + p.dg + p.db + da),
             if collect && p.DiffersIn(RgbChannel) then acc.rgbList + [(p.offset1, p.offset2)] else acc.rgbList,
             if collect && p.DiffersIn(AlphaChannel) then acc.alphaList + [(p.offset1, p.offset2)] else acc.alphaList)
  }

  /** The state of the loops after the body has run on `done`, one pixel
      after another, from the initial state. */
  function Run(done: seq<Pixel>, total: nat, collect: bool, colors: map<string, Color>): (t: Totals)
    requires |done| <= total
    ensures |t.rgb| == |t.alphaDelta| == |t.alpha1| == |t.alpha2| == 3 * total
    decreases |done|
  {
    if |done| == 0 then Initial(total)
    else Update(Run(done[..|done| - 1], total, collect, colors), done[|done| - 1], |done| - 1, collect, colors)
  }

  /** One buffer: the body's write paints one pixel more. */
  lemma PlaneStep(buf: seq<Byte>, done: seq<Pixel>, p: Pixel, plane: Plane, total: nat, colors: map<string, Color>)
    requires |done| < total && Painted(buf, done, plane, total, colors)
    ensures 3 * |done| + 3 <= |buf|
    ensures Painted(WritePlane(buf, p, |done|, plane, colors), done + [p], plane, total, colors)
  {
    if Writes(p, plane) {
      Written(buf, done, p, plane, total, colors, 3 * |done|, Chunk(p, plane, colors));
    } else {
      Untouched(buf, done, p, plane, total, colors);
    }
  }

  /** The body keeps every total equal to its fold over the visited
      pixels. */
  lemma UpdateTracks(acc: Totals, done: seq<Pixel>, p: Pixel, total: nat, collect: bool, colors: map<string, Color>)
    requires |done| < total && Tracks(acc, done, total, collect, colors)
    ensures Room(acc, |done|) && Tracks(Update(acc, p, |done|, collect, colors), done + [p], total, collect, colors)
  {
    Extend(done, p);
    PlaneStep(acc.rgb, done, p, Delta(RgbChannel), total, colors);
    PlaneStep(acc.alphaDelta, done, p, Delta(AlphaChannel), total, colors);
    PlaneStep(acc.alpha1, done, p, SourceAlpha1, total, colors);
    PlaneStep(acc.alpha2, done, p, SourceAlpha2, total, colors);
  }

  /** What the loops compute is what the fold describes: after any number
      of visited pixels, every buffer is painted for them and zero beyond,
      and every other total is its fold over them. */
  lemma {:induction false} RunTracks(done: seq<Pixel>, total: nat, collect: bool, colors: map<string, Color>)
    requires |done| <= total
    ensures Tracks(Run(done, total, collect, colors), done, total, collect, colors)
    decreases |done|
  {
    if |done| > 0 {
      RunTracks(done[..|done| - 1], total, collect, colors);
      RunStep(done, total, collect, colors);
    }
  }

  /** The induction step of `RunTracks`: one more pixel through the body. */
  lemma RunStep(done: seq<Pixel>, total: nat, collect: bool, colors: map<string, Color>)
    requires 0 < |done| <= total
    requires Tracks(Run(done[..|done| - 1], total, collect, colors), done[..|done| - 1], total, collect, colors)
    ensures Tracks(Run(done, total, collect, colors), done, total, collect, colors)
  {
    var front, last := done[..|done| - 1], done[|done| - 1];
    UpdateTracks(Run(front, total, collect, colors), front, last, total, collect, colors);
    Snoc(done);
  }

  /** A non-empty sequence is its front and its last element. */
  lemma Snoc(s: seq<Pixel>)
    requires |s| > 0
    ensures s[..|s| - 1] + [s[|s| - 1]] == s
  {
  }

  /** One cell of the inner loop: measure cell `(j, i)`, which is output
      pixel `k` and position `k` of the walk, then run the body on it. */
  method Step(job: Job, acc: Totals, j: nat, i: nat, k: nat, total: nat, collect: bool,
              colors: map<string, Color>, ghost walk: seq<Pixel>)
    returns (next: Totals)
    requires Scannable(job) && j < job.g1.height && i < job.g1.width
    requires total == |walk| && k < total && walk[k] == Eval(job, j, i)
    requires acc == Run(walk[..k], total, collect, colors)
    ensures next == Run(walk[..k + 1], total, collect, colors)
  {
    var p := Measure(job, j, i);
    TakeOneMore(walk, k);
    next := Update(acc, p, k, collect, colors);
  }

  /** A prefix one longer is the prefix and the next element. */
  lemma TakeOneMore(s: seq<Pixel>, k: nat)
    requires k < |s|
    ensures s[..k + 1][..k] == s[..k] && s[..k + 1][k] == s[k]
  {
  }

  /** The inner loop of `getDiff`: window row `j`, whose cells are the
      positions from `rowStart` on of the walk and the output pixels of the
      same numbers, cell by cell. Under `stopOnDiff` it stops at the first
      difference, `at` cells into the row. */
  method ScanRow(job: Job, acc: Totals, j: nat, rowStart: nat, total: nat, stopOnDiff: bool, collect: bool,
                 colors: map<string, Color>, ghost walk: seq<Pixel>)
    returns (next: Totals, stopped: bool, at: nat)
    requires Scannable(job) && j < job.g1.height
    requires total == |walk| && rowStart + job.g1.width <= total
    requires forall i | 0 <= i < job.g1.width :: walk[rowStart + i] == Eval(job, j, i)
    requires acc == Run(walk[..rowStart], total, collect, colors) && (stopOnDiff ==> acc.count == 0)
    ensures at <= job.g1.width && next == Run(walk[..rowStart + at], total, collect, colors)
    ensures stopped ==> stopOnDiff && next.count > 0
    ensures !stopped ==> at == job.g1.width && (stopOnDiff ==> next.count == 0)
  {
    next := acc;
    stopped := false;
    at := 0;
    while at < job.g1.width && !stopped
      invariant 0 <= at <= job.g1.width
      invariant next == Run(walk[..rowStart + at], total, collect, colors)
      invariant stopped <==> stopOnDiff && next.count > 0
    {
      next := Step(job, next, j, at, rowStart + at, total, collect, colors, walk);
      stopped := stopOnDiff && next.count > 0;
      at := at + 1;
    }
  }

  /** Row `j` is the `width` positions from `j * width` on. */
  lemma RowOf(job: Job, walk: seq<Pixel>, j: nat, rowStart: nat)
    requires Scannable(job) && Layout(job, walk) && j < job.g1.height && rowStart == j * job.g1.width
    ensures rowStart + job.g1.width <= |walk| && rowStart + job.g1.width == (j + 1) * job.g1.width
    ensures forall i | 0 <= i < job.g1.width :: walk[rowStart + i] == Eval(job, j, i)
  {
    Arith.MulMonotone(j + 1, job.g1.height, job.g1.width);
    assert (j + 1) * job.g1.width == rowStart + job.g1.width;
  }

  /** A difference met part-way through the walk is a difference of the
      whole walk. */
  lemma StopsEarly(walk: seq<Pixel>, n: nat, total: nat, collect: bool, colors: map<string, Color>)
    requires n <= |walk| <= total && Run(walk[..n], total, collect, colors).count > 0
    ensures Count(walk) > 0
  {
    RunTracks(walk[..n], total, collect, colors);
    CountPrefix(walk[..n], walk);
  }

  /** One pass of the outer loop: row `j`, then on to the next row. */
  method NextRow(job: Job, acc: Totals, j: nat, rowStart: nat, total: nat, stopOnDiff: bool, collect: bool,
                 colors: map<string, Color>, ghost walk: seq<Pixel>)
    returns (acc': Totals, stopped: bool, j': nat, rowStart': nat)
    requires Scannable(job) && Layout(job, walk) && total == |walk|
    requires j < job.g1.height && rowStart == j * job.g1.width && rowStart <= total
    requires acc == Run(walk[..rowStart], total, collect, colors) && (stopOnDiff ==> acc.count == 0)
    ensures j' == j + 1 && rowStart' == j' * job.g1.width && rowStart' <= total
    ensures !stopped ==> acc' == Run(walk[..rowStart'], total, collect, colors) && (stopOnDiff ==> acc'.count == 0)
    ensures stopped ==> stopOnDiff && Count(walk) > 0
  {
    RowOf(job, walk, j, rowStart);
    var at;
    acc', stopped, at := ScanRow(job, acc, j, rowStart, total, stopOnDiff, collect, colors, walk);
    if stopped {
      StopsEarly(walk, rowStart + at, total, collect, colors);
    }
    j', rowStart' := j + 1, rowStart + job.g1.width;
  }

  /** The two nested loops of `getDiff`, from zero-filled buffers. They stop
      early under `stopOnDiff` at the first difference; otherwise they end
      in the state the body reaches over the whole walk `walk`. */
  method ScanRows(job: Job, total: nat, stopOnDiff: bool, collect: bool, colors: map<string, Color>,
                  ghost walk: seq<Pixel>)
    returns (acc: Totals, stopped: bool)
    requires Scannable(job) && Layout(job, walk) && total == |walk|
    ensures stopped ==> stopOnDiff && Count(walk) > 0
    ensures !stopped ==> acc == Run(walk, total, collect, colors) && (stopOnDiff ==> acc.count == 0)
  {
    var w, h := job.g1.width, job.g1.height;
    acc := Totals(Zeros(3 * total), Zeros(3 * total), Zeros(3 * total), Zeros(3 * total), 0, 0, 0, [], []);
    assert walk[..0] == [];
    stopped := false;
    var j, rowStart := 0, 0;
    while j < h && !stopped
      invariant 0 <= j <= h && rowStart == j * w && rowStart <= total
      invariant !stopped ==> acc == Run(walk[..rowStart], total, collect, colors)
      invariant !stopped ==> (stopOnDiff ==> acc.count == 0)
      invariant stopped ==> stopOnDiff && Count(walk) > 0
    {
      acc, stopped, j, rowStart := NextRow(job, acc, j, rowStart, total, stopOnDiff, collect, colors, walk);
    }
    if !stopped {
      assert walk[..total] == walk;
    }
  }

  /** The loops of `getDiff` over a job whose checks have passed, and the
      result they return. */
  method Scan(job: Job, stopOnDiff: bool, collect: bool, colors: map<string, Color>) returns (r: DiffResult)
    requires Scannable(job)
    ensures r == if stopOnDiff && Count(Walk(job)) > 0 then Differs
                 else Completed(Summary(job, Walk(job), collect, colors))
  {
    var w, h := job.g1.width, job.g1.height;
    var total := h * w;
    RowsLength(job, h);
    WalkLayout(job);
    var acc, stopped := ScanRows(job, total, stopOnDiff, collect, colors, Walk(job));
    if stopped {
      return Differs;
    }
    RunTracks(Walk(job), total, collect, colors);
    Finished(acc, Walk(job), total, collect, colors);
    return Completed(Report(acc.count != 0, acc.rgb, w, h, acc.maxDelta, acc.count, acc.abs, acc.rgbList,
                            job.g1, job.g2,
                            if CompareAlpha(job) then Some(AlphaReport(acc.alphaDelta, acc.alpha1, acc.alpha2, acc.alphaList))
                            else None));
  }

  /** `getDiff`: the checks, then the loops. */
  method GetDiffLoop(img1: Image, img2: Image, geometry1: Option<Geometry>, geometry2: Option<Geometry>,
                     stopOnDiff: bool, compareType: CompareType, collect: bool, colors: map<string, Color>)
    returns (r: DiffResult)
    requires Callable(img1, img2, geometry1, geometry2)
    ensures r == Diff(img1, img2, geometry1, geometry2, stopOnDiff, compareType, collect, colors)
  {
    var g1 := if geometry1.None? then Geometry(0, 0, img1.width, img1.height) else Copy(geometry1.value);
    var g2 := if geometry2.None? then Geometry(0, 0, img2.width, img2.height) else Copy(geometry2.value);
    assert Job(img1, img2, g1, g2, compareType) == JobOf(img1, img2, geometry1, geometry2, compareType);
    DiffRejected(img1, img2, geometry1, geometry2, stopOnDiff, compareType, collect, colors);
    if !IsAreaEqual(g1, g2) {
      return Invalid(GeometryMismatch(ToString(g1), ToString(g2)));
    }
    if !ValidateGeometry(img1, g1) || !ValidateGeometry(img2, g2) {
      return Invalid(InvalidGeometry(ToString(g1), ToString(g2), IntToString(img1.width), IntToString(img2.width),
                                     IntToString(img1.height), IntToString(img2.height)));
    }
    if ((compareType == AlphaHi1 || compareType == AlphaLo1) && img1.BytesPerPixel() != 4)
       || ((compareType == AlphaHi2 || compareType == AlphaLo2) && img2.BytesPerPixel() != 4) {
      return Invalid(InvalidCombo(compareType.Name(), img1.BytesPerPixel(), img2.BytesPerPixel()));
    }
    if compareType == Full && (img1.BytesPerPixel() == 4) != (img2.BytesPerPixel() == 4) {
      return Differs;
    }
    DiffPassed(img1, img2, geometry1, geometry2, stopOnDiff, compareType, collect, colors);
    r := Scan(Job(img1, img2, g1, g2, compareType), stopOnDiff, collect, colors);
  }
}
