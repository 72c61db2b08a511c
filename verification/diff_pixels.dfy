/** What `getDiff` records for one visited pixel, and the running totals it
    keeps over the pixels visited so far: difference count, sum of absolute
    channel differences, largest channel difference, fail-pixel lists and the
    four 3-byte-per-pixel output buffers. Every total is a fold over the
    pixels in visiting order, so a prefix of the walk has a total of its own. */
module DiffPixels {
  import opened Text
  import opened AbstractImage
  import Arith

  /** A colour written into a delta buffer: three bytes. */
  type Color = c: seq<Byte> | |c| == 3 witness [0, 0, 0]

  const White: Color := [0xFF, 0xFF, 0xFF]
  const Black: Color := [0x00, 0x00, 0x00]

  /** The fallback key of the colour table. */
  const DefaultKey: string := "default"

  /** The colour for a difference of `t`: the table entry keyed by `str(t)`,
      else the `"default"` entry, else white. An absent or empty table gives
      white. */
  function ColorFor(colors: map<string, Color>, t: nat): (c: Color)
    ensures c == White || c in colors.Values
  {
    var key := IntToString(t);
    if key in colors then colors[key]
    else if DefaultKey in colors then colors[DefaultKey]
    else White
  }

  /** The table lookup: an exact entry wins over the default, and without a
      table every difference is painted white. */
  lemma ColorForLookup(colors: map<string, Color>, t: nat, t': nat)
    ensures colors == map[] ==> ColorFor(colors, t) == White
    ensures IntToString(t) in colors ==> ColorFor(colors, t) == colors[IntToString(t)]
    ensures IntToString(t) !in colors && IntToString(t') !in colors ==> ColorFor(colors, t) == ColorFor(colors, t')
  {
  }

  /** The alpha bytes of the two images at a pixel, when alpha is compared. */
  datatype AlphaPair = NoAlpha | Alphas(a1: Byte, a2: Byte)

  /** The two channel groups that have their own delta buffer and list. */
  datatype Channel = RgbChannel | AlphaChannel

  /** One visited pixel: skipped by the alpha mask, or compared, with the
      two input offsets and the absolute per-channel differences. */
  datatype Pixel =
    | Skipped
    | Compared(offset1: nat, offset2: nat, dr: nat, dg: nat, db: nat, alpha: AlphaPair)
  {
    /** The alpha difference; zero when alpha is not compared. */
    function Da(): nat {
      if Compared? && alpha.Alphas? then Arith.Abs(alpha.a1 - alpha.a2) else 0
    }

    /** The difference that picks the colour: the largest of R, G, B, or
        the alpha difference. */
    function Tint(ch: Channel): nat {
      if Skipped? then 0
      else match ch
        case RgbChannel => Arith.Max(Arith.Max(dr, dg), db)
        case AlphaChannel => Da()
    }

    predicate DiffersIn(ch: Channel) {
      Compared? && match ch
        case RgbChannel => dr > 0 || dg > 0 || db > 0
        case AlphaChannel => Da() > 0
    }

    /** The pixel counts towards `pixelDiffCount`. */
    predicate Differs() {
      DiffersIn(RgbChannel) || DiffersIn(AlphaChannel)
    }

    /** This pixel's share of `absDiffCount`. */
    function AbsDiff(): nat {
      if Compared? then dr + dg + db + Da() else 0
    }

    /** The largest of this pixel's channel differences, alpha included. */
    function MaxDiff(): nat {
      if Compared? then Arith.Max(Arith.Max(Arith.Max(dr, dg), db), Da()) else 0
    }

    /** Differences of byte values. */
    predicate Bounded() {
      Compared? ==> dr <= 255 && dg <= 255 && db <= 255
    }

    /** The `[inputPixelIndex1, inputPixelIndex2]` fail-list entry of a
        compared pixel. */
    function Entry(): (nat, nat) {
      if Compared? then (offset1, offset2) else (0, 0)
    }
  }

  /** The measures of one pixel agree on whether it differs, and a pixel of
      byte differences contributes at most 4 * 255 to the sum. */
  lemma PixelMeasures(p: Pixel)
    requires p.Bounded()
    ensures p.Differs() <==> p.AbsDiff() > 0
    ensures p.Differs() <==> p.MaxDiff() > 0
    ensures p.MaxDiff() <= 255 && p.MaxDiff() <= p.AbsDiff() <= 1020
    ensures forall ch :: p.DiffersIn(ch) <==> p.Tint(ch) > 0
  {
  }

  /** The four output buffers. */
  datatype Plane = Delta(channel: Channel) | SourceAlpha1 | SourceAlpha2

  /** The three bytes a pixel leaves in a buffer; buffers start black. */
  function Chunk(p: Pixel, plane: Plane, colors: map<string, Color>): (c: Color)
    ensures plane.Delta? && !p.DiffersIn(plane.channel) ==> c == Black
    ensures plane.Delta? && p.DiffersIn(plane.channel) ==> c == White || c in colors.Values
    ensures !plane.Delta? && (p.Skipped? || p.alpha.NoAlpha?) ==> c == Black
  {
    match plane
    case Delta(ch) => if p.DiffersIn(ch) then ColorFor(colors, p.Tint(ch)) else Black
    case SourceAlpha1 => if p.Compared? && p.alpha.Alphas? then [p.alpha.a1, p.alpha.a1, p.alpha.a1] else Black
    case SourceAlpha2 => if p.Compared? && p.alpha.Alphas? then [p.alpha.a2, p.alpha.a2, p.alpha.a2] else Black
  }

  /** `pixelDiffCount` after visiting `ps`. */
  function Count(ps: seq<Pixel>): (n: nat)
    ensures n <= |ps|
    decreases |ps|
  {
    if |ps| == 0 then 0
    else Count(ps[..|ps| - 1]) + (if ps[|ps| - 1].Differs() then 1 else 0)
  }

  /** `absDiffCount` after visiting `ps`. */
  function AbsSum(ps: seq<Pixel>): nat
    decreases |ps|
  {
    if |ps| == 0 then 0 else AbsSum(ps[..|ps| - 1]) + ps[|ps| - 1].AbsDiff()
  }

  /** `maxChannelDelta` after visiting `ps`: zero, raised to each visited
      pixel's largest difference in turn. */
  function MaxDelta(ps: seq<Pixel>): nat
    decreases |ps|
  {
    if |ps| == 0 then 0 else Arith.Max(MaxDelta(ps[..|ps| - 1]), ps[|ps| - 1].MaxDiff())
  }

  /** The running maximum bounds every visited pixel's differences and is
      attained by one of them, or is the initial zero. */
  lemma {:induction false} MaxDeltaExtremal(ps: seq<Pixel>)
    ensures forall k | 0 <= k < |ps| :: ps[k].MaxDiff() <= MaxDelta(ps)
    ensures MaxDelta(ps) == 0 || exists k | 0 <= k < |ps| :: ps[k].MaxDiff() == MaxDelta(ps)
    decreases |ps|
  {
    if |ps| > 0 {
      var front := ps[..|ps| - 1];
      MaxDeltaExtremal(front);
      assert forall k | 0 <= k < |front| :: ps[k] == front[k];
      if MaxDelta(ps) != 0 && MaxDelta(ps) != ps[|ps| - 1].MaxDiff() {
        var k :| 0 <= k < |front| && front[k].MaxDiff() == MaxDelta(front);
        assert ps[k].MaxDiff() == MaxDelta(ps);
      }
    }
  }

  /** `diffPixelRgbList` or `diffPixelAlphaList` after visiting `ps`. */
  function FailList(ps: seq<Pixel>, ch: Channel): (l: seq<(nat, nat)>)
    ensures |l| <= |ps|
    decreases |ps|
  {
    if |ps| == 0 then []
    else
      var p := ps[|ps| - 1];
      FailList(ps[..|ps| - 1], ch) + (if p.DiffersIn(ch) then [p.Entry()] else [])
  }

  /** A buffer after visiting `ps`: three bytes per pixel, in visiting order. */
  function Paint(ps: seq<Pixel>, plane: Plane, colors: map<string, Color>): (buf: seq<Byte>)
    ensures |buf| == 3 * |ps|
    decreases |ps|
  {
    if |ps| == 0 then [] else Paint(ps[..|ps| - 1], plane, colors) + Chunk(ps[|ps| - 1], plane, colors)
  }

  /** Pixel `k` of a painted buffer is the chunk of the `k`-th visited pixel. */
  lemma {:induction false} PaintPixels(ps: seq<Pixel>, plane: Plane, colors: map<string, Color>)
    ensures forall k | 0 <= k < |ps| ::
      (3 * k + 3 <= |Paint(ps, plane, colors)| && PixelAt(Paint(ps, plane, colors), 3, k) == Chunk(ps[k], plane, colors))
    decreases |ps|
  {
    if |ps| > 0 {
      var front := ps[..|ps| - 1];
      PaintPixels(front, plane, colors);
      forall k | 0 <= k < |ps|
        ensures 3 * k + 3 <= |Paint(ps, plane, colors)|
          && PixelAt(Paint(ps, plane, colors), 3, k) == Chunk(ps[k], plane, colors)
      {
        PixelAtAppend(Paint(front, plane, colors), Chunk(ps[|ps| - 1], plane, colors), |front|, k);
      }
    }
  }

  /** Visiting one more pixel updates every total by that pixel alone. */
  lemma Extend(ps: seq<Pixel>, p: Pixel)
    ensures Count(ps + [p]) == Count(ps) + (if p.Differs() then 1 else 0)
    ensures AbsSum(ps + [p]) == AbsSum(ps) + p.AbsDiff()
    ensures MaxDelta(ps + [p]) == Arith.Max(MaxDelta(ps), p.MaxDiff())
    ensures FailList(ps + [p], RgbChannel) == FailList(ps, RgbChannel) + (if p.DiffersIn(RgbChannel) then [p.Entry()] else [])
    ensures FailList(ps + [p], AlphaChannel) == FailList(ps, AlphaChannel) + (if p.DiffersIn(AlphaChannel) then [p.Entry()] else [])
  {
    assert (ps + [p])[..|ps|] == ps;
  }

  /** A pixel the alpha mask skips changes no counter, no fail list and no
      buffer: every buffer keeps its zeros there. */
  lemma SkippedChangesNothing(ps: seq<Pixel>, colors: map<string, Color>)
    ensures Count(ps + [Skipped]) == Count(ps) && AbsSum(ps + [Skipped]) == AbsSum(ps)
    ensures MaxDelta(ps + [Skipped]) == MaxDelta(ps)
    ensures forall ch :: FailList(ps + [Skipped], ch) == FailList(ps, ch)
    ensures forall plane :: Chunk(Skipped, plane, colors) == Black
  {
    Extend(ps, Skipped);
  }

  /** No pixel differs exactly when the count stays zero. */
  lemma {:induction false} CountZero(ps: seq<Pixel>)
    ensures Count(ps) == 0 <==> forall k | 0 <= k < |ps| :: !ps[k].Differs()
    decreases |ps|
  {
    if |ps| > 0 {
      var front := ps[..|ps| - 1];
      CountZero(front);
      assert forall k | 0 <= k < |front| :: front[k] == ps[k];
    }
  }

  /** Counting over two stretches of the walk adds up. */
  lemma {:induction false} CountAppend(a: seq<Pixel>, b: seq<Pixel>)
    ensures Count(a + b) == Count(a) + Count(b)
    decreases |b|
  {
    if |b| > 0 {
      var front := b[..|b| - 1];
      CountAppend(a, front);
      assert (a + b)[..|a + b| - 1] == a + front;
      assert (a + b)[|a + b| - 1] == b[|b| - 1];
    } else {
      assert a + b == a;
    }
  }

  /** A prefix counts no more differences than the whole. */
  lemma CountPrefix(a: seq<Pixel>, b: seq<Pixel>)
    requires a <= b
    ensures Count(a) <= Count(b)
  {
    var rest := b[|a|..];
    assert b == a + rest;
    CountAppend(a, rest);
  }

  /** Every differing pixel adds between 1 and 4 * 255 to the sum, the rest
      add nothing. */
  lemma {:induction false} CountAbsBounds(ps: seq<Pixel>)
    requires forall k | 0 <= k < |ps| :: ps[k].Bounded()
    ensures Count(ps) <= AbsSum(ps) <= 1020 * Count(ps)
    decreases |ps|
  {
    if |ps| > 0 {
      var front := ps[..|ps| - 1];
      assert forall k | 0 <= k < |front| :: front[k] == ps[k];
      CountAbsBounds(front);
      PixelMeasures(ps[|ps| - 1]);
    }
  }

  /** The largest channel difference is a byte, and it is zero exactly when
      no pixel differs. */
  lemma MaxDeltaBounds(ps: seq<Pixel>)
    requires forall k | 0 <= k < |ps| :: ps[k].Bounded()
    ensures MaxDelta(ps) <= 255
    ensures MaxDelta(ps) == 0 <==> Count(ps) == 0
  {
    CountZero(ps);
    MaxDeltaExtremal(ps);
    forall k | 0 <= k < |ps|
      ensures ps[k].Differs() <==> ps[k].MaxDiff() > 0
      ensures ps[k].MaxDiff() <= 255
    {
      PixelMeasures(ps[k]);
    }
  }

  /** A fail list holds the entries of exactly the pixels that differ in its
      channel. */
  lemma {:induction false} FailListMembers(ps: seq<Pixel>, ch: Channel, e: (nat, nat))
    ensures e in FailList(ps, ch) <==> exists k | 0 <= k < |ps| :: ps[k].DiffersIn(ch) && ps[k].Entry() == e
    decreases |ps|
  {
    if |ps| > 0 {
      var front := ps[..|ps| - 1];
      FailListMembers(front, ch, e);
      assert forall k | 0 <= k < |front| :: front[k] == ps[k];
      if exists k | 0 <= k < |ps| :: ps[k].DiffersIn(ch) && ps[k].Entry() == e {
        var k :| 0 <= k < |ps| && ps[k].DiffersIn(ch) && ps[k].Entry() == e;
        if k < |front| {
          assert front[k].DiffersIn(ch) && front[k].Entry() == e;
        }
      }
    }
  }

  /** A fail list has no more entries than there are differing pixels. */
  lemma {:induction false} FailListLength(ps: seq<Pixel>, ch: Channel)
    ensures |FailList(ps, ch)| <= Count(ps)
    decreases |ps|
  {
    if |ps| > 0 {
      FailListLength(ps[..|ps| - 1], ch);
    }
  }

  /** Compared pixels appear in strictly increasing first-image offset. */
  predicate IncreasingOffsets(ps: seq<Pixel>) {
    forall k, k' | 0 <= k < k' < |ps| && ps[k].Compared? && ps[k'].Compared? :: ps[k].offset1 < ps[k'].offset1
  }

  predicate StrictlySorted(l: seq<(nat, nat)>) {
    forall a, b | 0 <= a < b < |l| :: l[a].0 < l[b].0
  }

  /** Walking pixels in increasing offset gives a fail list sorted by offset,
      hence free of duplicates. */
  lemma {:induction false} FailListSorted(ps: seq<Pixel>, ch: Channel)
    requires IncreasingOffsets(ps)
    ensures StrictlySorted(FailList(ps, ch))
    decreases |ps|
  {
    if |ps| > 0 {
      var front := ps[..|ps| - 1];
      var p := ps[|ps| - 1];
      assert IncreasingOffsets(front) by {
        assert forall k | 0 <= k < |front| :: front[k] == ps[k];
      }
      FailListSorted(front, ch);
      if p.DiffersIn(ch) {
        var l := FailList(front, ch);
        forall a | 0 <= a < |l|
          ensures l[a].0 < p.offset1
        {
          FailListMembers(front, ch, l[a]);
          var k :| 0 <= k < |front| && front[k].DiffersIn(ch) && front[k].Entry() == l[a];
          assert ps[k] == front[k];
        }
      }
    }
  }
}
