/** The image-list navigation of the main window: stepping through the image
    sets and dropping the one on show. Redrawing after a change is left to
    the views and is not part of this model. */
module MainWindow {
  import opened Wrappers

  /** The two path lists (the second empty in view mode), the paths dropped
      so far, and the index of the image set on show. */
  datatype Browser = Browser(imagePathList1: seq<string>, imagePathList2: seq<string>,
                             droppedList1: seq<string>, droppedList2: seq<string>, index: int)

  /** Position `m` of a list after the element at `k` is removed. */
  function Skip(m: nat, k: nat): nat {
    if m < k then m else m + 1
  }

  /** Python's `list.pop(k)`: the element at `k`, counting from the end when
      `k` is negative, and the list without it; `None` is an `IndexError`. */
  function Pop<T>(s: seq<T>, k: int): (r: Option<(T, seq<T>)>)
    ensures r.Some? <==> -|s| <= k < |s|
    ensures r.Some? ==> |r.value.1| == |s| - 1 && multiset(r.value.1) + multiset{r.value.0} == multiset(s)
    ensures r.Some? && 0 <= k ==>
      r.value.0 == s[k] && forall m | 0 <= m < |r.value.1| :: r.value.1[m] == s[Skip(m, k)]
  {
    if -|s| <= k < |s| then
      var at := if k < 0 then |s| + k else k;
      assert s == s[..at] + [s[at]] + s[at + 1..];
      Some((s[at], s[..at] + s[at + 1..]))
    else None
  }

  /** The states the window keeps: an index into a non-empty first list, and
      a second list that is either unused or paired with the first one, as
      are the dropped lists. */
  predicate Valid(b: Browser) {
    && 0 <= b.index < |b.imagePathList1|
    && ((|b.imagePathList2| == 0 && |b.droppedList2| == 0)
        || (|b.imagePathList2| == |b.imagePathList1| && |b.droppedList2| == |b.droppedList1|))
  }

  /** `prevImage`: one image set back, never below the first. */
  function PrevImage(b: Browser): (r: Browser)
    ensures r.imagePathList1 == b.imagePathList1 && r.imagePathList2 == b.imagePathList2
    ensures r.droppedList1 == b.droppedList1 && r.droppedList2 == b.droppedList2
    ensures b.index > 0 ==> r.index == b.index - 1
    ensures b.index <= 0 ==> r == b
    ensures Valid(b) ==> Valid(r)
  {
    if b.index <= 0 then b else b.(index := b.index - 1)
  }

  /** `nextImage`: one image set on, never past the last. */
  function NextImage(b: Browser): (r: Browser)
    ensures r.imagePathList1 == b.imagePathList1 && r.imagePathList2 == b.imagePathList2
    ensures r.droppedList1 == b.droppedList1 && r.droppedList2 == b.droppedList2
    ensures b.index < |b.imagePathList1| - 1 ==> r.index == b.index + 1
    ensures b.index >= |b.imagePathList1| - 1 ==> r == b
    ensures Valid(b) ==> Valid(r)
  {
    if b.index >= |b.imagePathList1| - 1 then b else b.(index := b.index + 1)
  }

  /** Stepping back undoes stepping forward, away from the last image set. */
  lemma PrevUndoesNext(b: Browser)
    requires 0 <= b.index < |b.imagePathList1| - 1
    ensures PrevImage(NextImage(b)) == b
  {
  }

  /** Stepping forward undoes stepping back, away from the first image set. */
  lemma NextUndoesPrev(b: Browser)
    requires Valid(b) && b.index > 0
    ensures NextImage(PrevImage(b)) == b
  {
  }

  /** `dropImage`: unless only one image set is left, move the path on show
      from the first list to the end of the first dropped list, and likewise
      for the second list when it is in use; then pull the index back onto
      the last set if it fell off the end. `None` is an `IndexError`. */
  function DropImage(b: Browser): (r: Option<Browser>)
    ensures |b.imagePathList1| == 1 ==> r == Some(b)
    ensures Valid(b) ==> r.Some? && Valid(r.value)
    ensures Valid(b) && |b.imagePathList1| > 1 ==>
      && |r.value.imagePathList1| == |b.imagePathList1| - 1
      && r.value.droppedList1 == b.droppedList1 + [b.imagePathList1[b.index]]
      && multiset(r.value.imagePathList1 + r.value.droppedList1) == multiset(b.imagePathList1 + b.droppedList1)
      && (|b.imagePathList2| == 0 ==> r.value.imagePathList2 == [] && r.value.droppedList2 == b.droppedList2)
      && (|b.imagePathList2| > 0 ==> r.value.droppedList2 == b.droppedList2 + [b.imagePathList2[b.index]])
      && r.value.index == if b.index < |r.value.imagePathList1| then b.index else b.index - 1
  {
    if |b.imagePathList1| == 1 then Some(b)
    else
      match Pop(b.imagePathList1, b.index)
      case None => None
      case Some((path1, rest1)) =>
        var lists2: Option<(seq<string>, seq<string>)> :=
          if |b.imagePathList2| > 0 then
            (match Pop(b.imagePathList2, b.index)
             case None => None
             case Some((path2, rest2)) => Some((rest2, b.droppedList2 + [path2])))
          else Some((b.imagePathList2, b.droppedList2));
        match lists2
        case None => None
        case Some((rest2, dropped2)) =>
          var index := if b.index >= |rest1| then |rest1| - 1 else b.index;
          Some(Browser(rest1, rest2, b.droppedList1 + [path1], dropped2, index))
  }

  /** A drop keeps the image sets paired: every set left is a set from
      before, taken in order around the one dropped, and the dropped pair
      lands at the same position of both dropped lists. */
  lemma DropKeepsPairs(b: Browser)
    requires Valid(b) && |b.imagePathList1| > 1 && |b.imagePathList2| > 0
    ensures var r := DropImage(b).value;
      && |r.imagePathList2| == |r.imagePathList1|
      && (forall m | 0 <= m < |r.imagePathList1| ::
            r.imagePathList1[m] == b.imagePathList1[Skip(m, b.index)]
            && r.imagePathList2[m] == b.imagePathList2[Skip(m, b.index)])
      && r.droppedList1[|b.droppedList1|] == b.imagePathList1[b.index]
      && r.droppedList2[|b.droppedList1|] == b.imagePathList2[b.index]
  {
    var p1 := Pop(b.imagePathList1, b.index);
    var p2 := Pop(b.imagePathList2, b.index);
    assert p1.Some? && p2.Some?;
  }

  /** Dropping never empties the list: the window always has an image set
      to show, and repeated drops end at a single one that stays. */
  lemma {:induction false} DropsLeaveOne(b: Browser, n: nat)
    requires Valid(b)
    ensures var r := DropTimes(b, n);
      r.Some? && Valid(r.value)
      && |r.value.imagePathList1| == (if n < |b.imagePathList1| then |b.imagePathList1| - n else 1)
      && |r.value.imagePathList1| + |r.value.droppedList1| == |b.imagePathList1| + |b.droppedList1|
    decreases n
  {
    if n > 0 {
      var next := DropImage(b);
      DropsLeaveOne(next.value, n - 1);
    }
  }

  /** `dropImage` run `n` times; `None` once one raises. */
  function DropTimes(b: Browser, n: nat): Option<Browser>
    decreases n
  {
    if n == 0 then Some(b)
    else match DropImage(b)
      case None => None
      case Some(next) => DropTimes(next, n - 1)
  }
}
