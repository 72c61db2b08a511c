/** The index logic of the compare view: stepping through the RGB fail list
    of a comparison, turning a byte offset back into pixel coordinates, and
    placing the marker on the delta image. Qt widgets and painting are not
    part of this model. */
module CompareView {
  import opened Wrappers
  import opened Text
  import opened Common
  import opened AbstractImage
  import opened DiffPixels
  import opened DiffWalk
  import opened GetDiff
  import Arith

  /** Python's `list[k]`: a negative `k` counts from the end, and any other
      index out of range raises `IndexError` (`None`). */
  function Lookup<T>(s: seq<T>, k: int): (r: Option<T>)
    ensures r.Some? <==> -|s| <= k < |s|
    ensures r.Some? ==> r.value == s[if k < 0 then |s| + k else k]
  {
    if 0 <= k < |s| then Some(s[k])
    else if -|s| <= k < 0 then Some(s[|s| + k])
    else None
  }

  /** The navigation state: the two byte offsets shown and the position in
      the fail list, `-1` before the first step. */
  datatype Navigator = Navigator(pixelIndex1: int, pixelIndex2: int, pixelDiffIndex: int)

  /** The navigator shows fail-list entry `k`. */
  predicate Selects(nav: Navigator, list: seq<(nat, nat)>, k: int) {
    && 0 <= k < |list| && nav.pixelDiffIndex == k
    && nav.pixelIndex1 == list[k].0 && nav.pixelIndex2 == list[k].1
  }

  /** The states the view can be in for a fail list: the reset state, or
      showing the entry its index names. */
  predicate Consistent(nav: Navigator, list: Option<seq<(nat, nat)>>) {
    nav == Navigator(0, 0, -1) || (list.Some? && Selects(nav, list.value, nav.pixelDiffIndex))
  }

  /** `initVars`, run whenever a new image pair is shown: nothing selected,
      whatever the fail list. */
  function InitVars(): (nav: Navigator)
    ensures nav.pixelDiffIndex < 0
    ensures forall list :: Consistent(nav, list)
  {
    Navigator(0, 0, -1)
  }

  /** `diffData.get('diffPixelRgbList')`: absent for an image pair that did
      not load (`None` here, an empty dict in the source), for a failed
      check and for a bare difference. */
  function FailPixels(data: Option<DiffResult>): (r: Option<seq<(nat, nat)>>)
    ensures r.Some? <==> data.Some? && data.value.Completed?
    ensures r.Some? ==> r.value == data.value.report.diffPixelRgbList
  {
    if data.Some? && data.value.Completed? then Some(data.value.report.diffPixelRgbList) else None
  }

  /** Show entry `k` of the list, indexing as Python does. */
  function Show(list: seq<(nat, nat)>, k: int): (r: Option<Navigator>)
    ensures 0 <= k < |list| ==> r.Some? && Selects(r.value, list, k)
  {
    match Lookup(list, k)
    case None => None
    case Some(e) => Some(Navigator(e.0, e.1, k))
  }

  /** `nextDiffPixel`: nothing without a non-empty list; otherwise one entry
      on, held at the last. `None` is an `IndexError`. */
  function NextDiffPixel(nav: Navigator, list: Option<seq<(nat, nat)>>): (r: Option<Navigator>)
    ensures list.None? || |list.value| == 0 ==> r == Some(nav)
    ensures Consistent(nav, list) ==> r.Some? && Consistent(r.value, list)
    ensures Consistent(nav, list) && list.Some? && 0 < |list.value| ==>
      && (nav.pixelDiffIndex < |list.value| - 1 ==> r.value.pixelDiffIndex == nav.pixelDiffIndex + 1)
      && (nav.pixelDiffIndex == |list.value| - 1 ==> r.value == nav)
  {
    if list.None? || |list.value| == 0 then Some(nav)
    else Show(list.value, Arith.Min(nav.pixelDiffIndex + 1, |list.value| - 1))
  }

  /** `prevDiffPixel`: nothing without a non-empty list; otherwise one entry
      back, held at the first. `None` is an `IndexError`. */
  function PrevDiffPixel(nav: Navigator, list: Option<seq<(nat, nat)>>): (r: Option<Navigator>)
    ensures list.None? || |list.value| == 0 ==> r == Some(nav)
    ensures Consistent(nav, list) ==> r.Some? && Consistent(r.value, list)
    ensures Consistent(nav, list) && list.Some? && 0 < |list.value| ==>
      && (nav.pixelDiffIndex > 0 ==> r.value.pixelDiffIndex == nav.pixelDiffIndex - 1)
      && (nav.pixelDiffIndex <= 0 ==> Selects(r.value, list.value, 0))
  {
    if list.None? || |list.value| == 0 then Some(nav)
    else Show(list.value, Arith.Max(nav.pixelDiffIndex - 1, 0))
  }

  /** A step back undoes a step forward taken before the last entry. */
  lemma PrevUndoesNext(nav: Navigator, list: seq<(nat, nat)>)
    requires Selects(nav, list, nav.pixelDiffIndex) && nav.pixelDiffIndex < |list| - 1
    ensures var next := NextDiffPixel(nav, Some(list));
      next.Some? && PrevDiffPixel(next.value, Some(list)) == Some(nav)
  {
  }

  /** A step forward undoes a step back taken after the first entry. */
  lemma NextUndoesPrev(nav: Navigator, list: seq<(nat, nat)>)
    requires Selects(nav, list, nav.pixelDiffIndex) && nav.pixelDiffIndex > 0
    ensures var prev := PrevDiffPixel(nav, Some(list));
      prev.Some? && NextDiffPixel(prev.value, Some(list)) == Some(nav)
  {
  }

  /** `nextDiffPixel` pressed `n` times; `None` once one raises. */
  function NextTimes(nav: Navigator, list: Option<seq<(nat, nat)>>, n: nat): Option<Navigator>
    decreases n
  {
    if n == 0 then Some(nav)
    else match NextDiffPixel(nav, list)
      case None => None
      case Some(next) => NextTimes(next, list, n - 1)
  }

  /** From a freshly shown pair, `n > 0` presses of "next diff pixel" show
      entry `n - 1`, or the last entry once the list runs out. */
  lemma {:induction false} NextFromStart(list: seq<(nat, nat)>, n: nat)
    requires 0 < n && 0 < |list|
    ensures var r := NextTimes(InitVars(), Some(list), n);
      r.Some? && Selects(r.value, list, Arith.Min(n - 1, |list| - 1))
  {
    var first := NextDiffPixel(InitVars(), Some(list));
    assert first == Some(Navigator(list[0].0, list[0].1, 0));
    NextAfter(first.value, list, 0, n - 1);
  }

  /** `m` presses from entry `k` reach entry `min(k + m, |list| - 1)`. */
  lemma {:induction false} NextAfter(nav: Navigator, list: seq<(nat, nat)>, k: nat, m: nat)
    requires Selects(nav, list, k)
    ensures var r := NextTimes(nav, Some(list), m);
      r.Some? && Selects(r.value, list, Arith.Min(k + m, |list| - 1))
    decreases m
  {
    if m > 0 {
      var next := NextDiffPixel(nav, Some(list));
      assert next.Some? && Selects(next.value, list, Arith.Min(k + 1, |list| - 1));
      NextAfter(next.value, list, Arith.Min(k + 1, |list| - 1), m - 1);
    }
  }

  /** `pixelIndexToXY` on a non-negative offset: the pixel number
      `pixelIndex / bytesPerPixel` split into column and row of a
      `width`-wide image. */
  function PixelIndexToXY(pixelIndex: nat, bytesPerPixel: nat, width: nat): (xy: (nat, nat))
    requires bytesPerPixel > 0 && width > 0
    ensures xy.0 < width && pixelIndex / bytesPerPixel == xy.1 * width + xy.0
  {
    var t := pixelIndex / bytesPerPixel;
    (t % width, t / width)
  }

  /** `pixelIndexToXY` inverts the offset formula of `getDiff`: the offset of
      pixel `(x, y)` gives back `(x, y)`. */
  lemma PixelIndexToXYInverts(x: nat, y: nat, bytesPerPixel: nat, width: nat)
    requires bytesPerPixel > 0 && x < width
    ensures PixelIndexToXY((y * width + x) * bytesPerPixel, bytesPerPixel, width) == (x, y)
  {
    var t := y * width + x;
    Arith.DivModUnique(t * bytesPerPixel, bytesPerPixel, t, 0);
    Arith.DivModUnique(t, width, y, x);
  }

  /** `indexTmp` of `updateMarker`: the byte offset in the three-byte delta
      image of image pixel `(x, y)`, relative to the first window. */
  function MarkerOffset(g1: Geometry, x: int, y: int): (offset: int)
    requires NonNegative(g1)
    ensures 0 <= x - g1.x < g1.width && 0 <= y - g1.y < g1.height ==>
      0 <= offset && offset + 3 <= 3 * (g1.height * g1.width)
  {
    var x0, y0 := x - g1.x, y - g1.y;
    Arith.RowMajorInside(y0, x0, g1.width, g1.height);
    (g1.width * y0 + x0) * 3
  }

  /** `img3.data[indexTmp : indexTmp + 3] = markerColor` on a copy of the
      delta image: the marked pixel takes the marker colour and no other
      pixel changes. */
  function Mark(delta: seq<Byte>, offset: nat, marker: Color): (marked: seq<Byte>)
    requires offset + 3 <= |delta|
    ensures |marked| == |delta| && marked[offset .. offset + 3] == marker
    ensures forall b | 0 <= b < |delta| && !(offset <= b < offset + 3) :: marked[b] == delta[b]
  {
    delta[..offset] + marker + delta[offset + 3..]
  }

  /** The entry on show in a completed comparison is a cell `(j, i)` of the
      window whose colour differs. Its first offset turns back into that
      cell's pixel of the first image, and the marker lands on the cell's own
      pixel of the delta image, the one painted with its colour. */
  lemma SelectedCell(job: Job, colors: map<string, Color>, nav: Navigator) returns (j: nat, i: nat)
    requires Scannable(job)
    requires var list := Summary(job, Walk(job), true, colors).diffPixelRgbList;
      Selects(nav, list, nav.pixelDiffIndex)
    ensures j < job.g1.height && i < job.g1.width
    ensures Eval(job, j, i).DiffersIn(RgbChannel) && Eval(job, j, i).Entry() == (nav.pixelIndex1, nav.pixelIndex2)
    ensures job.img1.width > 0 && nav.pixelIndex1 >= 0
    ensures PixelIndexToXY(nav.pixelIndex1, job.img1.BytesPerPixel(), job.img1.width) == (i + job.g1.x, j + job.g1.y)
    ensures MarkerOffset(job.g1, i + job.g1.x, j + job.g1.y) == 3 * (j * job.g1.width + i)
    ensures var rep := Summary(job, Walk(job), true, colors);
      && 3 * (j * job.g1.width + i) + 3 <= |rep.deltaImageRgb|
      && PixelAt(rep.deltaImageRgb, 3, j * job.g1.width + i) == ColorFor(colors, Eval(job, j, i).Tint(RgbChannel))
  {
    j, i := ShownCell(job, colors, nav);
    CellOffsetXY(job, j, i);
    assert MarkerOffset(job.g1, i + job.g1.x, j + job.g1.y) == (job.g1.width * j + i) * 3;
    ReportDeltaImage(job, true, colors, j, i, j * job.g1.width + i);
  }

  /** The entry on show belongs to a differing cell of the window. */
  lemma ShownCell(job: Job, colors: map<string, Color>, nav: Navigator) returns (j: nat, i: nat)
    requires Scannable(job)
    requires var list := Summary(job, Walk(job), true, colors).diffPixelRgbList;
      Selects(nav, list, nav.pixelDiffIndex)
    ensures j < job.g1.height && i < job.g1.width
    ensures Eval(job, j, i).DiffersIn(RgbChannel) && Eval(job, j, i).Entry() == (nav.pixelIndex1, nav.pixelIndex2)
  {
    var list := Summary(job, Walk(job), true, colors).diffPixelRgbList;
    var e := list[nav.pixelDiffIndex];
    ReportFailListMembers(job, colors, e);
    j, i :| j < job.g1.height && i < job.g1.width && Eval(job, j, i).DiffersIn(RgbChannel) && Eval(job, j, i).Entry() == e;
  }

  /** The first offset of a compared cell turns back into the cell's pixel
      of the first image. */
  lemma CellOffsetXY(job: Job, j: nat, i: nat)
    requires Scannable(job) && j < job.g1.height && i < job.g1.width && Eval(job, j, i).Compared?
    ensures job.img1.width > 0
    ensures PixelIndexToXY(Eval(job, j, i).offset1, job.img1.BytesPerPixel(), job.img1.width) == (i + job.g1.x, j + job.g1.y)
  {
    var x, y := i + job.g1.x, j + job.g1.y;
    assert Eval(job, j, i).offset1 == (y * job.img1.width + x) * job.img1.BytesPerPixel();
    PixelIndexToXYInverts(x, y, job.img1.BytesPerPixel(), job.img1.width);
  }
}
