/** The pixel walk of `getDiff` once its checks have passed: row by row over
    the window of the first geometry, reading each pixel of both images at
    the same window position, skipping it when the alpha mask says so. */
module DiffWalk {
  import opened Text
  import opened Common
  import opened AbstractImage
  import opened DiffPixels
  import Arith

  /** The images, their windows and the comparison type of one call. */
  datatype Job = Job(img1: Image, img2: Image, g1: Geometry, g2: Geometry, compareType: CompareType)

  /** `flagCompareAlpha`: a full comparison of two four-byte images. */
  predicate CompareAlpha(job: Job) {
    job.compareType == Full && job.img1.BytesPerPixel() == 4 && job.img2.BytesPerPixel() == 4
  }

  /** A mask mode needs four bytes per pixel in the image whose alpha it
      reads. */
  predicate ComboValid(t: CompareType, img1: Image, img2: Image) {
    && ((t == AlphaHi1 || t == AlphaLo1) ==> img1.BytesPerPixel() == 4)
    && ((t == AlphaHi2 || t == AlphaLo2) ==> img2.BytesPerPixel() == 4)
  }

  /** Everything `getDiff` has established when its loop starts, plus the
      well-formedness its indexing relies on. */
  predicate Scannable(job: Job) {
    && WellFormed(job.img1) && WellFormed(job.img2)
    && NonNegative(job.g1) && NonNegative(job.g2)
    && IsAreaEqual(job.g1, job.g2)
    && ValidateGeometry(job.img1, job.g1) && ValidateGeometry(job.img2, job.g2)
    && ComboValid(job.compareType, job.img1, job.img2)
  }

  /** Both input offsets of window cell `(j, i)` lie inside their buffers. */
  lemma OffsetsInBuffer(job: Job, j: nat, i: nat)
    requires Scannable(job) && j < job.g1.height && i < job.g1.width
    ensures 0 <= InputIndex(job.img1, job.g1, j, i)
    ensures InputIndex(job.img1, job.g1, j, i) + job.img1.BytesPerPixel() <= |job.img1.data|
    ensures 0 <= InputIndex(job.img2, job.g2, j, i)
    ensures InputIndex(job.img2, job.g2, j, i) + job.img2.BytesPerPixel() <= |job.img2.data|
  {
    ValidatedWindowInBuffer(job.img1, job.g1, j, i);
    ValidatedWindowInBuffer(job.img2, job.g2, j, i);
  }

  /** The alpha mask: the `continue` tests on the alpha byte of one image. */
  predicate Excluded(job: Job, o1: nat, o2: nat)
    requires Scannable(job)
    requires o1 + job.img1.BytesPerPixel() <= |job.img1.data|
    requires o2 + job.img2.BytesPerPixel() <= |job.img2.data|
  {
    match job.compareType
    case AlphaHi1 => job.img1.data[o1 + 3] != 0xFF
    case AlphaLo1 => job.img1.data[o1 + 3] == 0x00
    case AlphaHi2 => job.img2.data[o2 + 3] != 0xFF
    case AlphaLo2 => job.img2.data[o2 + 3] == 0x00
    case _ => false
  }

  /** Window cell `(j, i)`: skipped, or the absolute differences of R, G and
      B, and the two alpha bytes when alpha is compared. */
  function Eval(job: Job, j: nat, i: nat): (p: Pixel)
    requires Scannable(job) && j < job.g1.height && i < job.g1.width
    ensures p.Bounded()
    ensures p.Compared? ==> p.offset1 + job.img1.BytesPerPixel() <= |job.img1.data|
    ensures p.Compared? ==> p.offset2 + job.img2.BytesPerPixel() <= |job.img2.data|
    ensures p.Compared? ==> (p.alpha.Alphas? <==> CompareAlpha(job))
    ensures job.compareType == Alphaless || job.compareType == Full ==> p.Compared?
  {
    OffsetsInBuffer(job, j, i);
    var o1: nat := InputIndex(job.img1, job.g1, j, i);
    var o2: nat := InputIndex(job.img2, job.g2, j, i);
    var d1, d2 := job.img1.data, job.img2.data;
    if Excluded(job, o1, o2) then Skipped
    else
      Compared(o1, o2,
               Arith.Abs(d1[o1] as int - d2[o2]), Arith.Abs(d1[o1 + 1] as int - d2[o2 + 1]),
               Arith.Abs(d1[o1 + 2] as int - d2[o2 + 2]),
               if CompareAlpha(job) then Alphas(d1[o1 + 3], d2[o2 + 3]) else NoAlpha)
  }

  /** The cells of window row `j`, left to right. */
  function Row(job: Job, j: nat): seq<Pixel>
    requires Scannable(job) && j < job.g1.height
  {
    seq(job.g1.width, i requires 0 <= i < job.g1.width => Eval(job, j, i))
  }

  /** The first `n` window rows, top to bottom. */
  function Rows(job: Job, n: nat): seq<Pixel>
    requires Scannable(job) && n <= job.g1.height
  {
    if n == 0 then [] else Rows(job, n - 1) + Row(job, n - 1)
  }

  /** The whole walk: one pixel per window cell. */
  function Walk(job: Job): (ps: seq<Pixel>)
    requires Scannable(job)
    ensures |ps| == job.g1.height * job.g1.width
  {
    RowsLength(job, job.g1.height);
    Rows(job, job.g1.height)
  }

  /** The first `n` rows hold `n` rows' worth of cells. */
  lemma {:induction false} RowsLength(job: Job, n: nat)
    requires Scannable(job) && n <= job.g1.height
    ensures |Rows(job, n)| == n * job.g1.width
    decreases n
  {
    if n > 0 {
      RowsLength(job, n - 1);
      assert n * job.g1.width == (n - 1) * job.g1.width + job.g1.width;
    }
  }

  /** The walk is row-major: cell `(j, i)` sits at position
      `j * width + i`, which is also its pixel number in the output buffers,
      in every walk prefix that has reached its row. */
  lemma {:induction false} RowsCell(job: Job, n: nat, j: nat, i: nat)
    requires Scannable(job) && n <= job.g1.height && j < n && i < job.g1.width
    ensures j * job.g1.width + i < |Rows(job, n)| && Rows(job, n)[j * job.g1.width + i] == Eval(job, j, i)
    decreases n
  {
    RowsLength(job, n - 1);
    if j < n - 1 {
      RowsCell(job, n - 1, j, i);
      RowsStepEarlier(job, n, j, i);
    } else {
      RowsStepLast(job, n, j, i);
    }
  }

  /** `RowsCell`'s induction step for a cell of the row just appended. */
  lemma RowsStepLast(job: Job, n: nat, j: nat, i: nat)
    requires Scannable(job) && 0 < n <= job.g1.height && j == n - 1 && i < job.g1.width
    requires |Rows(job, n - 1)| == (n - 1) * job.g1.width
    ensures j * job.g1.width + i < |Rows(job, n)| && Rows(job, n)[j * job.g1.width + i] == Eval(job, j, i)
  {
    var w := job.g1.width;
    var front := Rows(job, n - 1);
    var k := j * w + i;
    assert k == |front| + i;
    assert Rows(job, n) == front + Row(job, n - 1);
    assert Row(job, n - 1)[i] == Eval(job, j, i);
  }
  /** `RowsCell`'s induction step for a cell of an earlier row. */
  lemma RowsStepEarlier(job: Job, n: nat, j: nat, i: nat)
    requires Scannable(job) && 0 < n <= job.g1.height && j < n - 1 && i < job.g1.width
    requires |Rows(job, n - 1)| == (n - 1) * job.g1.width
    requires j * job.g1.width + i < |Rows(job, n - 1)| && Rows(job, n - 1)[j * job.g1.width + i] == Eval(job, j, i)
    ensures j * job.g1.width + i < |Rows(job, n)| && Rows(job, n)[j * job.g1.width + i] == Eval(job, j, i)
  {
    assert Rows(job, n) == Rows(job, n - 1) + Row(job, n - 1);
  }

  /** Fewer rows are a prefix of more rows: the walk only appends. */
  lemma {:induction false} RowsPrefix(job: Job, n: nat, m: nat)
    requires Scannable(job) && n <= m <= job.g1.height
    ensures Rows(job, n) <= Rows(job, m)
    decreases m
  {
    if n < m {
      RowsPrefix(job, n, m - 1);
    }
  }

  /** Later cells of the window sit at larger offsets of the first image. */
  lemma OffsetOrder(job: Job, j: nat, i: nat, j': nat, i': nat)
    requires Scannable(job)
    requires j < job.g1.height && i < job.g1.width && j' < job.g1.height && i' < job.g1.width
    requires j < j' || (j == j' && i < i')
    ensures InputIndex(job.img1, job.g1, j, i) < InputIndex(job.img1, job.g1, j', i')
  {
    var g, w := job.g1, job.img1.width;
    Arith.RowMajorMonotone(j + g.y, i + g.x, j' + g.y, i' + g.x, w);
    Arith.ScaleStrict((j + g.y) * w + i + g.x, (j' + g.y) * w + i' + g.x, job.img1.BytesPerPixel());
  }

  /** Position `k` of the walk is window cell `(k / width, k % width)`. */
  lemma WalkCell(job: Job, k: nat) returns (j: nat, i: nat)
    requires Scannable(job) && k < |Walk(job)|
    ensures j < job.g1.height && i < job.g1.width && k == j * job.g1.width + i
    ensures Walk(job)[k] == Eval(job, j, i)
  {
    var w, h := job.g1.width, job.g1.height;
    RowsLength(job, h);
    j, i := Arith.RowMajorSplit(k, w, h);
    RowsCell(job, h, j, i);
  }

  /** Cell `(j, i)` of the window is position `j * width + i` of the walk. */
  lemma CellAt(job: Job, j: nat, i: nat) returns (k: nat)
    requires Scannable(job) && j < job.g1.height && i < job.g1.width
    ensures k == j * job.g1.width + i && k < |Walk(job)| && Walk(job)[k] == Eval(job, j, i)
  {
    RowsCell(job, job.g1.height, j, i);
    Arith.RowMajorBound(j, i, job.g1.width, job.g1.height);
    k := j * job.g1.width + i;
  }

  /** `walk` lists the cells of the window row by row: cell `(j, i)` at
      position `j * width + i`. */
  predicate Layout(job: Job, walk: seq<Pixel>)
    requires Scannable(job)
  {
    && |walk| == job.g1.height * job.g1.width
    && forall j, i | 0 <= j < job.g1.height && 0 <= i < job.g1.width ::
         j * job.g1.width + i < |walk| && walk[j * job.g1.width + i] == Eval(job, j, i)
  }

  /** The walk is laid out row by row. */
  lemma WalkLayout(job: Job)
    requires Scannable(job)
    ensures Layout(job, Walk(job))
  {
    RowsLength(job, job.g1.height);
    WalkCells(job);
  }

  /** Every window cell is at its row-major position of the walk. */
  lemma WalkCells(job: Job)
    requires Scannable(job)
    ensures forall j, i | 0 <= j < job.g1.height && 0 <= i < job.g1.width ::
      j * job.g1.width + i < |Walk(job)| && Walk(job)[j * job.g1.width + i] == Eval(job, j, i)
  {
    forall j, i | 0 <= j < job.g1.height && 0 <= i < job.g1.width
      ensures j * job.g1.width + i < |Walk(job)| && Walk(job)[j * job.g1.width + i] == Eval(job, j, i)
    {
      var k := CellAt(job, j, i);
      assert k == j * job.g1.width + i;
      assert Walk(job)[j * job.g1.width + i] == Eval(job, j, i);
    }
  }

  /** Every walked pixel holds byte differences. */
  lemma WalkBounded(job: Job)
    requires Scannable(job)
    ensures forall k | 0 <= k < |Walk(job)| :: Walk(job)[k].Bounded()
  {
    forall k | 0 <= k < |Walk(job)|
      ensures Walk(job)[k].Bounded()
    {
      var j, i := WalkCell(job, k);
    }
  }

  /** The walk meets compared pixels in strictly increasing first-image
      offset. */
  lemma WalkIncreasing(job: Job)
    requires Scannable(job)
    ensures IncreasingOffsets(Walk(job))
  {
    var ps, w := Walk(job), job.g1.width;
    forall k, k' | 0 <= k < k' < |ps| && ps[k].Compared? && ps[k'].Compared?
      ensures ps[k].offset1 < ps[k'].offset1
    {
      var j, i := WalkCell(job, k);
      var j', i' := WalkCell(job, k');
      Arith.LexOrder(k, k', w);
      Arith.DivModUnique(k, w, j, i);
      Arith.DivModUnique(k', w, j', i');
      OffsetOrder(job, j, i, j', i');
    }
  }

  /** The mask modes compare the pixels they keep exactly as `ALPHALESS`
      does, and skip exactly the pixels the alpha test excludes. */
  lemma MaskedEval(job: Job, j: nat, i: nat)
    requires Scannable(job) && j < job.g1.height && i < job.g1.width
    ensures 0 <= InputIndex(job.img1, job.g1, j, i)
    ensures InputIndex(job.img1, job.g1, j, i) + job.img1.BytesPerPixel() <= |job.img1.data|
    ensures 0 <= InputIndex(job.img2, job.g2, j, i)
    ensures InputIndex(job.img2, job.g2, j, i) + job.img2.BytesPerPixel() <= |job.img2.data|
    ensures Eval(job, j, i).Skipped? <==> Excluded(job, InputIndex(job.img1, job.g1, j, i), InputIndex(job.img2, job.g2, j, i))
    ensures Scannable(job.(compareType := Alphaless))
    ensures job.compareType != Full && Eval(job, j, i).Compared? ==>
      Eval(job, j, i) == Eval(job.(compareType := Alphaless), j, i)
  {
    OffsetsInBuffer(job, j, i);
  }

  /** Under alpha comparison no cell is skipped, and a cell's pixel carries
      the alpha bytes at the cell's offsets in the two images. */
  lemma EvalAlpha(job: Job, j: nat, i: nat)
    requires Scannable(job) && CompareAlpha(job) && j < job.g1.height && i < job.g1.width
    ensures var p := Eval(job, j, i);
      && p.Compared?
      && p.offset1 == InputIndex(job.img1, job.g1, j, i) && p.offset1 + 4 <= |job.img1.data|
      && p.offset2 == InputIndex(job.img2, job.g2, j, i) && p.offset2 + 4 <= |job.img2.data|
      && p.alpha == Alphas(job.img1.data[p.offset1 + 3], job.img2.data[p.offset2 + 3])
  {
    OffsetsInBuffer(job, j, i);
  }

  /** An image compared with itself over the same window shows no
      difference anywhere. */
  lemma SelfWalk(job: Job)
    requires Scannable(job) && job.img1 == job.img2 && job.g1 == job.g2
    ensures Count(Walk(job)) == 0
  {
    var ps := Walk(job);
    forall k | 0 <= k < |ps|
      ensures !ps[k].Differs()
    {
      var j, i := WalkCell(job, k);
    }
    CountZero(ps);
  }
}
