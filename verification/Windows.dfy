// The window ring of the compositor and the visible regions of its windows.
module Windows {
  import opened Rects
  import opened RectMath
  import opened PpaSplit
  import opened Options

  const BORDER_PX: int := 2
  const BORDER_TOP_PX: int := 25

  // ---- Occlusion, on values ----

  /** All pieces of all rectangles outside `o`. */
  function SubtractAll(rs: seq<Rect>, o: Rect): seq<Rect> {
    if rs == [] then [] else SubtractAll(rs[..|rs| - 1], o) + Subtract(rs[|rs| - 1], o)
  }

  /** What is left of `content` below the occluders, with at most 64 pieces at each step. */
  function Occluded(content: Rect, occluders: seq<Rect>): seq<Rect> {
    if occluders == [] then [content]
    else Capped(SubtractAll(Occluded(content, occluders[..|occluders| - 1]), occluders[|occluders| - 1]))
  }

  /** No step had more than 64 pieces. */
  ghost predicate NothingDropped(content: Rect, occluders: seq<Rect>) {
    occluders == [] ||
    (var front := occluders[..|occluders| - 1];
     NothingDropped(content, front) &&
     |SubtractAll(Occluded(content, front), occluders[|occluders| - 1])| <= MAX_VISIBLE_RECTS)
  }

  ghost predicate CoveredByAny(rs: seq<Rect>, px: int, py: int) {
    exists i :: 0 <= i < |rs| && Covers(rs[i], px, py)
  }

  lemma SubtractAllLast(rs: seq<Rect>, o: Rect, px: int, py: int)
    requires rs != []
    ensures Count(SubtractAll(rs, o), px, py) ==
            Count(SubtractAll(rs[..|rs| - 1], o), px, py) + One(Covers(rs[|rs| - 1], px, py) && !Covers(o, px, py))
  {
    SubtractIsExact(rs[|rs| - 1], o, px, py);
    CountConcat(SubtractAll(rs[..|rs| - 1], o), Subtract(rs[|rs| - 1], o), px, py);
  }

  lemma {:induction false} SubtractAllCount(rs: seq<Rect>, o: Rect, px: int, py: int)
    ensures Count(SubtractAll(rs, o), px, py) == if Covers(o, px, py) then 0 else Count(rs, px, py)
  {
    if rs != [] {
      SubtractAllCount(rs[..|rs| - 1], o, px, py);
      SubtractAllLast(rs, o, px, py);
      CountAt(rs, |rs| - 1, px, py);
    }
  }

  /**
   * Occlusion is exact: a pixel is in one piece when it is content and under no
   * occluder, and in none otherwise; pieces dropped at the cap only lose pixels.
   */
  lemma {:induction false} OccludedCount(content: Rect, occluders: seq<Rect>, px: int, py: int)
    ensures var exposed := One(Covers(content, px, py) && !CoveredByAny(occluders, px, py));
            && Count(Occluded(content, occluders), px, py) <= exposed
            && (NothingDropped(content, occluders) ==> Count(Occluded(content, occluders), px, py) == exposed)
  {
    if occluders == [] {
      CountOne(content, px, py);
    } else {
      var front, o := occluders[..|occluders| - 1], occluders[|occluders| - 1];
      OccludedCount(content, front, px, py);
      SubtractAllCount(Occluded(content, front), o, px, py);
      CappedCount(SubtractAll(Occluded(content, front), o), px, py);
      LastOccluder(occluders, px, py);
    }
  }

  lemma LastOccluder(rs: seq<Rect>, px: int, py: int)
    requires rs != []
    ensures CoveredByAny(rs, px, py) <==>
            CoveredByAny(rs[..|rs| - 1], px, py) || Covers(rs[|rs| - 1], px, py)
  {
    var front := rs[..|rs| - 1];
    if CoveredByAny(rs, px, py) {
      var i :| 0 <= i < |rs| && Covers(rs[i], px, py);
      if i < |front| { assert front[i] == rs[i]; }
    }
    if CoveredByAny(front, px, py) {
      var i :| 0 <= i < |front| && Covers(front[i], px, py);
      assert rs[i] == front[i];
    }
  }

  lemma {:induction false} SubtractAllNonNegative(rs: seq<Rect>, o: Rect)
    requires NonNegative(rs)
    ensures NonNegative(SubtractAll(rs, o))
    ensures |SubtractAll(rs, o)| <= 4 * |rs|
  {
    if rs != [] {
      SubtractAllNonNegative(rs[..|rs| - 1], o);
      SubtractNonNegative(rs[|rs| - 1], o);
    }
  }

  /** Under at most three windows nothing is ever dropped. */
  lemma FewOccluders(content: Rect, occluders: seq<Rect>)
    requires |occluders| <= 3
    ensures NothingDropped(content, occluders)
    ensures |Occluded(content, occluders)| <=
            if |occluders| == 0 then 1 else if |occluders| == 1 then 4 else if |occluders| == 2 then 16 else 64
  {
    if occluders != [] {
      var front := occluders[..|occluders| - 1];
      FewOccluders(content, front);
      SubtractAllLength(Occluded(content, front), occluders[|occluders| - 1]);
    }
  }

  lemma {:induction false} SubtractAllLength(rs: seq<Rect>, o: Rect)
    ensures |SubtractAll(rs, o)| <= 4 * |rs|
  {
    if rs != [] {
      SubtractAllLength(rs[..|rs| - 1], o);
    }
  }

  // ---- The window ring ----

  /** The pixel is the content pixel (cx, cy), or in the border that belongs to it. */
  predicate Beside(cx: int, cy: int, px: int, py: int, fullscreen: bool) {
    if fullscreen then px == cx && py == cy
    else cx - BORDER_PX <= px <= cx + BORDER_PX && cy - BORDER_TOP_PX <= py <= cy + BORDER_PX
  }

  lemma FitsWithin(scale: real, part: real, whole: real)
    requires part > 0.0
    ensures scale <= whole / part <==> scale * part <= whole
  {
    assert whole / part * part == whole;
  }

  type Positive = n: int | n > 0 witness 1

  datatype Size = Size(w: Positive, h: Positive)

  class Window {
    var rect: Rect
    var fullscreen: bool
    var gone: bool // its task is: task_info is cleared
    var buffer: Option<Size> // its front framebuffer, when it has one
    const visible: RectArray
    var next: Window?
    var prev: Window?

    constructor (rect: Rect, fullscreen: bool)
      ensures this.rect == rect && this.fullscreen == fullscreen && !gone && buffer == None
      ensures next == null && prev == null
      ensures visible.Valid() && fresh(visible) && fresh(visible.rects)
    {
      this.rect, this.fullscreen, gone, buffer := rect, fullscreen, false, None;
      next, prev := null, null;
      visible := new RectArray();
    }

    /** The pixels of the window's own content. */
    function Content(): Rect
      reads this
    {
      if fullscreen then rect else rect.(x := rect.x + BORDER_PX, y := rect.y + BORDER_TOP_PX)
    }

    /** The pixels the window hides, decorations included. */
    function Decorated(): Rect
      reads this
    {
      if fullscreen then rect
      else rect.(w := rect.w + BORDER_PX * 2, h := rect.h + (BORDER_TOP_PX + BORDER_PX))
    }

    /** The window hides the pixel from those behind: it is content or, around that, decoration. */
    predicate Hides(px: int, py: int)
      reads this
    {
      var c := Content();
      if fullscreen then Covers(c, px, py)
      else
        && c.x - BORDER_PX <= px < c.x + c.w + BORDER_PX
        && c.y - BORDER_TOP_PX <= py < c.y + c.h + BORDER_PX
    }

    /** The decorated rectangle starts where the window is placed, and has just the pixels that the window hides. */
    lemma DecoratedHides(px: int, py: int)
      ensures Covers(Decorated(), px, py) <==> Hides(px, py)
      ensures Decorated().x == rect.x && Decorated().y == rect.y && (fullscreen ==> Content() == rect)
    {
    }

    /** A window hides the pixels no further from its content than the border is wide on that side. */
    lemma HidesAround(px: int, py: int)
      requires rect.w > 0 && rect.h > 0
      ensures Hides(px, py) <==>
                exists cx, cy :: Covers(Content(), cx, cy) && Beside(cx, cy, px, py, fullscreen)
    {
      var c := Content();
      var cx := if px < c.x then c.x else if px < c.x + c.w then px else c.x + c.w - 1;
      var cy := if py < c.y then c.y else if py < c.y + c.h then py else c.y + c.h - 1;
      assert Covers(c, cx, cy);
      assert Hides(px, py) ==> Beside(cx, cy, px, py, fullscreen);
    }

    /** How much larger than its framebuffer the window shows: the smaller of both ratios. */
    function Scale(): real
      reads this
    {
      if buffer.None? then 1.0 else
      var x, y := rect.w as real / buffer.value.w as real, rect.h as real / buffer.value.h as real;
      if x <= y then x else y
    }

    /** The scale is the largest at which the framebuffer fits in the window. */
    lemma ScaleFits(scale: real)
      ensures buffer.None? ==> Scale() == 1.0
      ensures buffer.Some? ==>
                (scale <= Scale() <==>
                   scale * buffer.value.w as real <= rect.w as real && scale * buffer.value.h as real <= rect.h as real)
    {
      if buffer.Some? {
        FitsWithin(scale, buffer.value.w as real, rect.w as real);
        FitsWithin(scale, buffer.value.h as real, rect.h as real);
      }
    }

    predicate Attached()
      reads this
    {
      prev != null && next != null
    }
  }

  // ---- What a window shows, on values ----

  /** The pieces of a window after merging: as many as fit, and no two that could be merged. */
  ghost predicate AreMerged(pieces: seq<Rect>, merged: seq<Rect>) {
    && |merged| <= MAX_VISIBLE_RECTS && SameCover(pieces, merged)
    && forall i, j | 0 <= i < j < |merged| :: !Mergeable(merged[i], merged[j])
  }

  /** What the strip workaround leaves of merged pieces. */
  ghost predicate AreStrips(merged: seq<Rect>, shown: seq<Rect>, scale: real)
    requires scale > 0.0
  {
    && Splits(shown, scale) == 0
    && (NoneGrows(merged, scale) ==> NoMoreCover(merged, shown))
    && (AllPieces(merged, scale) <= MAX_VISIBLE_RECTS ==>
          |shown| == AllPieces(merged, scale) && (SameCover(merged, shown) <==> NoneGrows(merged, scale)))
  }

  /** The visible rectangles of a window are its merged pieces, or strips of them for the PPA. */
  ghost predicate AreRegions(pieces: seq<Rect>, merged: seq<Rect>, shown: seq<Rect>, usePpa: bool, scale: real) {
    AreMerged(pieces, merged) && if usePpa then scale > 0.0 && AreStrips(merged, shown, scale) else shown == merged
  }

  /**
   * What decides what a window shows - its content, the windows in front of it, its
   * scale - and whether its task is gone.
   */
  datatype View = View(content: Rect, front: seq<Rect>, scale: real, gone: bool) {
    function Pieces(): seq<Rect> { Occluded(content, front) }
  }

  predicate NoneGone(views: seq<View>, from: int) {
    forall k | 0 <= k < |views| && from <= k :: !views[k].gone
  }

  /** The visible rectangles are those of a view. */
  ghost predicate Shows(view: View, shown: seq<Rect>, usePpa: bool) {
    exists merged :: AreRegions(view.Pieces(), merged, shown, usePpa, view.scale)
  }

  /** The rectangles show each pixel of the content that is not hidden by the others once, and nothing else. */
  ghost predicate ShowsRest(content: Rect, others: seq<Rect>, shown: seq<Rect>) {
    forall px, py {:trigger Count(shown, px, py)} ::
      Count(shown, px, py) == One(Covers(content, px, py) && !CoveredByAny(others, px, py))
  }

  /** Both lists of rectangles hide the same pixels of the content. */
  ghost predicate HideTheSame(content: Rect, a: seq<Rect>, b: seq<Rect>) {
    forall px, py | Covers(content, px, py) :: CoveredByAny(a, px, py) <==> CoveredByAny(b, px, py)
  }

  /** What is promised of the visible rectangles of a window. */
  datatype Claim = OnlyExposed | AllExposed

  /** The last windows of the ring, from position `from` on, in reverse order. */
  ghost predicate BackToFront(ring: seq<Window>, visited: seq<Window>, from: nat) {
    && from <= |ring| && |visited| == |ring| - from
    && forall i | 0 <= i < |visited| :: visited[i] == ring[|ring| - 1 - i]
  }

  lemma VisitNext(ring: seq<Window>, visited: seq<Window>, i: nat)
    requires i < |ring| && BackToFront(ring, visited, i + 1)
    ensures BackToFront(ring, visited + [ring[i]], i)
  {
  }

  /**
   * How a walk over the windows in `before` ends: all of them are visited, back to front,
   * and stay; or those behind the hindmost whose task is gone, and that one is removed.
   */
  ghost predicate WalkEnds(before: seq<Window>, after: seq<Window>, views: seq<View>,
                           visited: seq<Window>, removed: Option<nat>)
  {
    && |views| == |before| && (removed.None? <==> NoneGone(views, 0))
    && (removed.None? ==> after == before && BackToFront(before, visited, 0))
    && (removed.Some? ==>
          var i := removed.value;
          && i < |before| && views[i].gone && NoneGone(views, i + 1)
          && BackToFront(before, visited, i + 1) && after == before[i + 1..] + before[..i])
  }

  lemma WalkIsOver(before: seq<Window>, after: seq<Window>, views: seq<View>,
                   visited: seq<Window>, removed: Option<nat>, i: int)
    requires |views| == |before| && -1 <= i < |before| && removed == if i == -1 then None else Some(i)
    requires NoneGone(views, i + 1) && BackToFront(before, visited, i + 1)
    requires if i == -1 then after == before else views[i].gone && after == before[i + 1..] + before[..i]
    ensures WalkEnds(before, after, views, visited, removed)
  {
  }

  /** The arrays of the visible rectangles of windows. */
  ghost function Arrays(ws: seq<Window>): set<object> {
    (set w | w in ws :: w.visible) + (set w | w in ws :: w.visible.rects)
  }

  class WindowStack {
    var head: Window?
    var curNumWindows: int
    var regionsValid: bool // the windows show what is exposed of them, it is believed
    const usePpa: bool // whether the PPA draws the windows
    ghost var ring: seq<Window> // front to back

    ghost function After(i: nat): Window
      requires i < |ring|
      reads this`ring
    {
      if i + 1 < |ring| then ring[i + 1] else ring[0]
    }

    /** Neighbours in the ring point at each other; the last one's neighbour is the first. */
    ghost predicate Wired(i: nat)
      requires i < |ring|
      reads this`ring, ring
    {
      ring[i].next == After(i) && After(i).prev == ring[i]
    }

    ghost predicate Valid()
      reads this`head, this`curNumWindows, this`ring, ring
    {
      && (head == if ring == [] then null else ring[0])
      && curNumWindows == |ring|
      && (forall i, j | 0 <= i < |ring| && 0 <= j < |ring| && ring[i] == ring[j] :: i == j)
      && (forall i {:trigger Wired(i)} | 0 <= i < |ring| :: Wired(i))
    }

    constructor (usePpa: bool)
      ensures Valid() && ring == [] && !regionsValid && this.usePpa == usePpa
    {
      head, curNumWindows, ring := null, 0, [];
      this.usePpa, regionsValid := usePpa, false;
    }

    /** push_window: the new window becomes the front one. */
    method PushWindow(window: Window)
      requires Valid() && window !in ring
      modifies this`head, this`curNumWindows, this`ring, window`next, window`prev, ring`next, ring`prev
      ensures Valid() && ring == [window] + old(ring)
      ensures window.Attached()
    {
      if head != null {
        ghost var n := |ring|;
        assert Wired(n - 1);
        var tail := head.prev;
        window.next := head;
        window.prev := tail;
        head.prev := window;
        tail.next := window;
      } else {
        window.prev := window;
        window.next := window;
      }
      head := window;
      curNumWindows := curNumWindows + 1;
      ring := [window] + ring;
      forall i | 0 <= i < |ring| ensures Wired(i) {
        if 0 < i < |ring| - 1 { assert old(Wired(i - 1)); }
      }
    }

    /**
     * remove_window: a window that is not in the ring is left alone. The window
     * behind the removed one comes to the front, whichever window was removed.
     */
    method RemoveWindow(window: Window, ghost k: nat)
      requires Valid() && (window in ring <==> window.Attached())
      requires window in ring ==> k < |ring| && ring[k] == window
      modifies this`head, this`curNumWindows, this`ring, window`next, window`prev, ring`next, ring`prev
      ensures Valid()
      ensures window !in old(ring) ==> ring == old(ring) && curNumWindows == old(curNumWindows) && head == old(head)
      ensures window in old(ring) ==> k < |old(ring)| && ring == old(ring)[k + 1..] + old(ring)[..k]
      ensures !window.Attached() && window !in ring
    {
      if window.prev == null || window.next == null {
        return;
      }
      ghost var n := |ring|;
      ghost var before := if k > 0 then k - 1 else n - 1;
      assert Wired(k) && Wired(before);
      ghost var rest := ring[k + 1..] + ring[..k];
      if window.prev == window {
        assert n == 1;
        head := null;
      } else {
        var prev := window.prev;
        var next := window.next;
        if prev == next {
          assert n == 2;
          prev.next := prev;
          prev.prev := prev;
          head := prev;
        } else {
          next.prev := prev;
          prev.next := next;
          head := next;
        }
      }
      window.prev := null;
      window.next := null;
      curNumWindows := curNumWindows - 1;
      ring := rest;
      forall i | 0 <= i < |ring| ensures Wired(i) {
        assert old(Wired(if k + 1 + i < n then k + 1 + i else k + 1 + i - n));
      }
    }

    /** ALT-TAB: the second window comes to the front, the first goes to the back. */
    method AltTab()
      requires Valid() && ring != []
      modifies this`head, this`ring
      ensures Valid() && ring == old(ring)[1..] + [old(ring)[0]]
    {
      assert Wired(0);
      head := head.next;
      ring := ring[1..] + [ring[0]];
      forall i | 0 <= i < |ring| ensures Wired(i) {
        assert old(Wired(if i + 1 < |ring| then i + 1 else 0));
      }
    }

    // ---- Rendering ----

    /** The decorated rectangles of the windows in front of window `k`, front to back. */
    ghost function InFrontOf(k: nat): (rs: seq<Rect>)
      requires k <= |ring|
      reads this`ring, ring
      ensures |rs| == k
    {
      if k == 0 then [] else InFrontOf(k - 1) + [ring[k - 1].Decorated()]
    }

    /** Every window has its own array of visible rectangles and a size that is not negative. */
    ghost predicate Displayable()
      reads this`ring, ring, Arrays(ring)
    {
      && (forall i, j | 0 <= i < |ring| && 0 <= j < |ring| && i != j ::
            ring[i].visible != ring[j].visible && ring[i].visible.rects != ring[j].visible.rects)
      && (forall i | 0 <= i < |ring| ::
            ring[i].visible.Valid() && ring[i].rect.w >= 0 && ring[i].rect.h >= 0 && (usePpa ==> ring[i].Scale() > 0.0))
    }

    /** The pixel is content of window `k` and no window in front hides it. */
    ghost predicate Exposed(k: nat, px: int, py: int)
      requires k < |ring|
      reads this`ring, ring
    {
      Covers(ring[k].Content(), px, py) && forall j | 0 <= j < k :: !ring[j].Hides(px, py)
    }

    lemma ExposedIs(k: nat, px: int, py: int)
      requires k < |ring|
      ensures Exposed(k, px, py) <==> Covers(ring[k].Content(), px, py) && !CoveredByAny(InFrontOf(k), px, py)
    {
      forall j: nat | j < k ensures Covers(InFrontOf(k)[j], px, py) <==> ring[j].Hides(px, py) {
        FrontAt(k, j);
        ring[j].DecoratedHides(px, py);
      }
    }

    lemma FrontAt(k: nat, j: nat)
      requires j < k <= |ring|
      ensures InFrontOf(k)[j] == ring[j].Decorated()
      decreases k - j
    {
      if j + 1 < k {
        FrontAt(k - 1, j);
      }
    }

    ghost predicate Claims(k: nat, c: Claim)
      requires k < |ring|
      reads this`ring, ring, ring[k].visible, ring[k].visible.rects
    {
      var visible := ring[k].visible;
      && visible.Valid()
      && (c == AllExposed ==> NothingDropped(ring[k].Content(), InFrontOf(k)) ==>
            forall px, py {:trigger Count(visible.Contents(), px, py)} ::
              Count(visible.Contents(), px, py) == One(Exposed(k, px, py)))
      && (c == OnlyExposed ==>
            forall px, py {:trigger Count(visible.Contents(), px, py)} ::
              Count(visible.Contents(), px, py) <= One(Exposed(k, px, py)))
    }

    /**
     * The visible rectangles of window `k` do not overlap and show only exposed
     * pixels; they show all of them when the cap dropped no piece.
     */
    ghost predicate ShowsExposed(k: nat)
      requires k < |ring|
      reads this`ring, ring, ring[k].visible, ring[k].visible.rects
    {
      forall c {:trigger Claims(k, c)} :: Claims(k, c)
    }

    lemma OccludedShowsExposed(k: nat)
      requires Valid() && k < |ring| && ring[k].visible.Valid()
      requires SameCover(Occluded(ring[k].Content(), InFrontOf(k)), ring[k].visible.Contents())
      ensures ShowsExposed(k)
    {
      var shown := ring[k].visible.Contents();
      forall px, py ensures Count(shown, px, py) <= One(Exposed(k, px, py)) {
        OccludedCount(ring[k].Content(), InFrontOf(k), px, py);
        ExposedIs(k, px, py);
      }
      if NothingDropped(ring[k].Content(), InFrontOf(k)) {
        forall px, py ensures Count(shown, px, py) == One(Exposed(k, px, py)) {
          OccludedCount(ring[k].Content(), InFrontOf(k), px, py);
          ExposedIs(k, px, py);
        }
      }
    }

    /** A pixel exposed in one window is hidden in every window behind it. */
    lemma ExposedOnce(i: nat, k: nat, px: int, py: int)
      requires Valid() && i < k < |ring| && Exposed(i, px, py)
      ensures !Exposed(k, px, py)
    {
      ring[i].DecoratedHides(px, py);
    }

    /** Visible regions of different windows never overlap, even when pieces were dropped. */
    lemma VisibleRegionsNeverOverlap(i: nat, k: nat, px: int, py: int)
      requires Valid() && i < k < |ring| && Claims(i, OnlyExposed) && Claims(k, OnlyExposed)
      ensures Count(ring[i].visible.Contents(), px, py) + Count(ring[k].visible.Contents(), px, py) <= 1
    {
      assert Count(ring[i].visible.Contents(), px, py) <= One(Exposed(i, px, py));
      assert Count(ring[k].visible.Contents(), px, py) <= One(Exposed(k, px, py));
      if Exposed(i, px, py) {
        ExposedOnce(i, k, px, py);
      }
    }

    /** What decides what window `k` shows. */
    ghost function ViewOf(k: nat): View
      requires k < |ring|
      reads this`ring, ring
    {
      View(ring[k].Content(), InFrontOf(k), ring[k].Scale(), ring[k].gone)
    }

    /** The visible rectangles are right for a view. */
    ghost predicate RightFor(view: View, visible: RectArray)
      reads visible, visible.rects
    {
      visible.Valid() && Right(view, visible.Contents())
    }

    ghost predicate Right(view: View, shown: seq<Rect>) {
      forall open {:trigger RightIf(open, view, shown)} :: RightIf(open, view, shown)
    }

    ghost predicate RightIf(open: bool, view: View, shown: seq<Rect>) {
      open ==> Shows(view, shown, usePpa)
    }

    /** The views of all windows, front to back. */
    ghost predicate SceneIs(views: seq<View>)
      reads this`ring, ring
    {
      |views| == |ring| && forall open {:trigger SceneIf(open, views)} :: SceneIf(open, views)
    }

    ghost predicate SceneIf(open: bool, views: seq<View>)
      reads this`ring, ring
    {
      open ==> |views| == |ring| && forall k | 0 <= k < |views| :: views[k] == ViewOf(k)
    }

    lemma SceneAt(views: seq<View>, k: nat)
      requires SceneIs(views) && k < |ring|
      ensures views[k] == ViewOf(k)
    {
      assert SceneIf(true, views);
    }

    /** The windows from position `from` on show what is right for these views. */
    ghost predicate ShownAs(ws: seq<Window>, views: seq<View>, from: nat)
      reads Arrays(ws)
    {
      forall open {:trigger ShownAsIf(open, ws, views, from)} :: ShownAsIf(open, ws, views, from)
    }

    ghost predicate ShownAsIf(open: bool, ws: seq<Window>, views: seq<View>, from: nat)
      reads Arrays(ws)
    {
      open ==> |views| == |ws| && forall k | from <= k < |ws| :: RightFor(views[k], ws[k].visible)
    }

    lemma ShownFrom(ws: seq<Window>, views: seq<View>, from: nat, k: nat)
      requires ShownAs(ws, views, from) && from <= k
      ensures ShownAs(ws, views, k)
    {
      assert ShownAsIf(true, ws, views, from);
    }

    lemma ShownAt(ws: seq<Window>, views: seq<View>, from: nat, k: nat)
      requires ShownAs(ws, views, from) && from <= k < |ws|
      ensures |views| == |ws| && RightFor(views[k], ws[k].visible)
    {
      assert ShownAsIf(true, ws, views, from);
    }

    /** What a walk may change of the visible rectangles: nothing when they are believed to be right. */
    ghost function ToShow(): set<object>
      reads this`ring, this`regionsValid
    {
      if regionsValid then {} else Arrays(ring)
    }

    /**
     * The render loop: visits the windows back to front, and while the regions are not
     * believed to be right makes each show what is exposed of it. The first window it
     * meets whose task is gone is removed, and ends the walk. From then on the regions
     * are believed to be right, also if the walk ended early.
     */
    method RenderWalk(ghost views: seq<View>) returns (ghost visited: seq<Window>, ghost removed: Option<nat>)
      requires Valid() && ring != [] && Displayable() && SceneIs(views)
      modifies ToShow(), this, ring`next, ring`prev
      ensures Valid() && regionsValid
      ensures WalkEnds(old(ring), ring, views, visited, removed) && (removed.None? ==> SceneIs(views))
      ensures old(regionsValid ==> ShownAs(ring, views, 0)) ==>
                forall k: nat | (removed.Some? ==> removed.value < k) && k < |views| ::
                  RightFor(views[k], old(ring)[k].visible)
    {
      var window;
      ghost var i;
      ghost var regionsAreRight := regionsValid ==> ShownAs(ring, views, 0);
      visited, window, i := Walk(regionsAreRight, views);
      assert WalkedIf(true, visited, i + 1, regionsAreRight, views);
      removed := if window == null then None else Some(i);
      ghost var right := ShownAs(ring, views, i + 1);
      assert right ==> ShownAsIf(true, ring, views, i + 1);
      EndWalk(window, i, views);
      forall k: nat | i < k < |views| && right ensures RightFor(views[k], old(ring)[k].visible) {
      }
      WalkIsOver(old(ring), ring, views, visited, removed, i);
    }

    /** The end of the render loop. */
    method EndWalk(window: Window?, ghost i: int, ghost views: seq<View>)
      requires Valid() && -1 <= i < |ring| && (window == null <==> i == -1) && (i >= 0 ==> window == ring[i])
      modifies this, ring`next, ring`prev
      ensures Valid() && regionsValid
      ensures window == null ==> ring == old(ring) && (old(SceneIs(views)) ==> SceneIs(views))
      ensures window != null ==> ring == old(ring)[i + 1..] + old(ring)[..i]
    {
      regionsValid := true;
      if window != null {
        StepBack(i);
        assert Wired(i);
        RemoveWindow(window, i);
      }
    }

    /** The walk, up to the first window whose task is gone, if there is one. */
    method Walk(ghost right: bool, ghost views: seq<View>)
        returns (ghost visited: seq<Window>, met: Window?, ghost i: int)
      requires Valid() && ring != [] && Displayable() && SceneIs(views)
      requires right && regionsValid ==> ShownAs(ring, views, 0)
      modifies ToShow()
      ensures Valid() && -1 <= i < |ring| && (met == null <==> i == -1) && Walked(visited, i + 1, right, views)
      ensures met != null ==> ring[i] == met && |views| == |ring| && views[i].gone
    {
      i := |ring| - 1;
      NoneWalked(right, views);
      StepBack(0);
      var window := head.prev;
      visited, met := [], null;
      var again := true;
      while again
        invariant Valid() && -1 <= i < |ring| && again == (i >= 0) && Walked(visited, i + 1, right, views)
        invariant i >= 0 ==> window == ring[i]
        decreases i
      {
        WalkedTo(visited, i, right, views);
        if window.gone {
          met := window;
          return;
        }
        again, window, visited := Visit(window, i, visited, right, views);
        i := i - 1;
      }
    }

    /** The windows from position `from` on have been visited, back to front, and show what is right. */
    ghost predicate Walked(visited: seq<Window>, from: nat, right: bool, views: seq<View>)
      reads this`ring, this`regionsValid, ring, Arrays(ring)
    {
      forall open {:trigger WalkedIf(open, visited, from, right, views)} :: WalkedIf(open, visited, from, right, views)
    }

    ghost predicate WalkedIf(open: bool, visited: seq<Window>, from: nat, right: bool, views: seq<View>)
      reads this`ring, this`regionsValid, ring, Arrays(ring)
    {
      open ==>
      && Displayable() && BackToFront(ring, visited, from) && SceneIs(views) && NoneGone(views, from)
      && (right ==> ShownAs(ring, views, from) && (regionsValid ==> ShownAs(ring, views, 0)))
    }

    lemma NoneWalked(right: bool, views: seq<View>)
      requires Displayable() && SceneIs(views) && (right && regionsValid ==> ShownAs(ring, views, 0))
      ensures Walked([], |ring|, right, views)
    {
      if right && regionsValid {
        ShownFrom(ring, views, 0, |ring|);
      } else {
        assert ShownAsIf(true, ring, views, |ring|);
      }
    }

    /** The window that a walk has come to, and what is known of its task. */
    lemma WalkedTo(visited: seq<Window>, i: nat, right: bool, views: seq<View>)
      requires i < |ring| && Walked(visited, i + 1, right, views)
      ensures |views| == |ring| && views[i].gone == ring[i].gone
    {
      assert WalkedIf(true, visited, i + 1, right, views);
      SceneAt(views, i);
    }

    /** One turn of the walk: the window, and the step to the one in front of it, if there is one. */
    method Visit(window: Window, ghost i: nat, ghost visited: seq<Window>, ghost right: bool, ghost views: seq<View>)
        returns (again: bool, prev: Window, ghost visited': seq<Window>)
      requires Valid() && i < |ring| && window == ring[i] && Walked(visited, i + 1, right, views) && !window.gone
      modifies ToShow()
      ensures Valid() && Walked(visited', i, right, views) && again == (i > 0) && (i > 0 ==> prev == ring[i - 1])
    {
      assert WalkedIf(true, visited, i + 1, right, views);
      WalkedTo(visited, i, right, views);
      VisitNext(ring, visited, i);
      visited' := visited + [window];
      StepBack(i);
      prev := window.prev;
      again := prev != head.prev;
      ShowStale(window, i, right, views);
    }

    /** The visible rectangles of a window are made new while they are not believed to be right. */
    method ShowStale(window: Window, ghost i: nat, ghost right: bool, ghost views: seq<View>)
      requires Valid() && i < |ring| && window == ring[i] && Displayable() && SceneIs(views)
      requires right ==> ShownAs(ring, views, i + 1) && (regionsValid ==> ShownAs(ring, views, 0))
      modifies ToShow()
      ensures Valid() && Displayable() && SceneIs(views)
      ensures right ==> ShownAs(ring, views, i) && (regionsValid ==> ShownAs(ring, views, 0))
    {
      if !regionsValid {
        ShowWindow(window, i, views);
      } else if right {
        ShownFrom(ring, views, 0, i);
      }
    }

    lemma StepBack(i: nat)
      requires Valid() && i < |ring|
      ensures head.prev == ring[|ring| - 1]
      ensures ring[i].prev == ring[if i > 0 then i - 1 else |ring| - 1]
      ensures i > 0 ==> ring[i - 1] != ring[|ring| - 1]
    {
      assert Wired(if i > 0 then i - 1 else |ring| - 1) && Wired(|ring| - 1);
    }

    method ShowWindow(window: Window, ghost i: nat, ghost views: seq<View>)
      requires Valid() && i < |ring| && window == ring[i] && Displayable() && SceneIs(views)
      modifies window.visible, window.visible.rects
      ensures Displayable() && (old(ShownAs(ring, views, i + 1)) ==> ShownAs(ring, views, i))
    {
      SceneAt(views, i);
      assert ShownAs(ring, views, i + 1) ==> ShownAsIf(true, ring, views, i + 1);
      ghost var merged := CalculateVisible(window, i);
    }

    /** window_calculate_visible_regions: the regions of window `k`, and strips of them for the PPA. */
    method CalculateVisible(window: Window, ghost k: nat) returns (ghost merged: seq<Rect>)
      requires Valid() && k < |ring| && ring[k] == window && (usePpa ==> window.Scale() > 0.0)
      requires window.visible.Valid() && window.rect.w >= 0 && window.rect.h >= 0
      modifies window.visible, window.visible.rects
      ensures RightFor(old(ViewOf(k)), window.visible)
      ensures AreRegions(Occluded(window.Content(), InFrontOf(k)), merged, window.visible.Contents(),
                         usePpa, window.Scale())
    {
      if usePpa {
        var dropped;
        dropped, merged := CalculateVisibleStrips(window, window.Scale(), k);
      } else {
        CalculateVisibleRegions(window, k);
        merged := window.visible.Contents();
      }
      assert AreRegions(ViewOf(k).Pieces(), merged, window.visible.Contents(), usePpa, window.Scale());
    }

    /**
     * window_calculate_visible_regions for window `k` with the PPA. `merged` are the
     * rectangles before any strip is split.
     */
    method CalculateVisibleStrips(window: Window, scale: real, ghost k: nat)
        returns (dropped: nat, ghost merged: seq<Rect>)
      requires Valid() && k < |ring| && ring[k] == window && scale > 0.0
      requires window.visible.Valid() && window.rect.w >= 0 && window.rect.h >= 0
      modifies window.visible, window.visible.rects
      ensures window.visible.Valid()
      ensures AreRegions(Occluded(window.Content(), InFrontOf(k)), merged, window.visible.Contents(), true, scale)
      ensures dropped == 0 <==> AllPieces(merged, scale) <= MAX_VISIBLE_RECTS
      ensures forall i | 0 <= i < window.visible.count :: !Problematic(window.visible.rects[i].h, scale)
    {
      CalculateVisibleRegions(window, k);
      merged := window.visible.Contents();
      dropped := SplitUntilFine(window.visible, scale);
    }

    /**
     * What right regions show: only exposed pixels unless a strip of one row grows, and
     * all of them when besides no strip and no piece was dropped.
     */
    lemma ShownIsExposed(k: nat) returns (merged: seq<Rect>)
      requires Valid() && k < |ring| && RightFor(ViewOf(k), ring[k].visible)
      ensures ring[k].visible.Valid()
      ensures var scale := ring[k].Scale();
              && AreRegions(ViewOf(k).Pieces(), merged, ring[k].visible.Contents(), usePpa, scale)
              && (!usePpa || NoneGrows(merged, scale) ==> Claims(k, OnlyExposed))
              && (!usePpa || (NoneGrows(merged, scale) && AllPieces(merged, scale) <= MAX_VISIBLE_RECTS) ==>
                    ShowsExposed(k))
    {
      var scale := ring[k].Scale();
      assert RightIf(true, ViewOf(k), ring[k].visible.Contents());
      merged :| AreRegions(ViewOf(k).Pieces(), merged, ring[k].visible.Contents(), usePpa, scale);
      if usePpa {
        StripsShowExposed(k, merged, NoneGrows(merged, scale), AllPieces(merged, scale) <= MAX_VISIBLE_RECTS);
      } else {
        OccludedShowsExposed(k);
      }
    }

    /**
     * Visible rectangles that were right for one view are right behind other windows
     * exactly when those hide the same pixels of the content, if no piece was dropped.
     */
    lemma RightBehindOthers(view: View, others: seq<Rect>, visible: RectArray)
      requires !usePpa && RightFor(view, visible) && NothingDropped(view.content, view.front)
      ensures ShowsRest(view.content, others, visible.Contents()) <==> HideTheSame(view.content, view.front, others)
    {
      var shown := visible.Contents();
      assert RightIf(true, view, shown);
      forall px, py
        ensures Count(shown, px, py) == One(Covers(view.content, px, py) && !CoveredByAny(view.front, px, py))
      {
        OccludedCount(view.content, view.front, px, py);
        assert Count(shown, px, py) == Count(view.Pieces(), px, py);
      }
      if ShowsRest(view.content, others, shown) {
        forall px, py | Covers(view.content, px, py)
          ensures CoveredByAny(view.front, px, py) <==> CoveredByAny(others, px, py)
        {
          assert Count(shown, px, py) == One(Covers(view.content, px, py) && !CoveredByAny(others, px, py));
        }
      }
    }

    lemma StripsShowExposed(k: nat, merged: seq<Rect>, fine: bool, all: bool)
      requires Valid() && k < |ring| && ring[k].visible.Valid()
      requires SameCover(Occluded(ring[k].Content(), InFrontOf(k)), merged)
      requires fine ==> NoMoreCover(merged, ring[k].visible.Contents())
      requires fine && all ==> SameCover(merged, ring[k].visible.Contents())
      ensures fine ==> Claims(k, OnlyExposed)
      ensures fine && all ==> ShowsExposed(k)
    {
      if !fine {
        return;
      }
      if all {
        SameCoverTwice(Occluded(ring[k].Content(), InFrontOf(k)), merged, ring[k].visible.Contents());
        OccludedShowsExposed(k);
      }
      var shown := ring[k].visible.Contents();
      forall px, py ensures Count(shown, px, py) <= One(Exposed(k, px, py)) {
        OccludedCount(ring[k].Content(), InFrontOf(k), px, py);
        ExposedIs(k, px, py);
        assert Count(merged, px, py) == Count(Occluded(ring[k].Content(), InFrontOf(k)), px, py);
      }
    }

    /** window_calculate_visible_regions for window `k`, without the PPA and its strips. */
    method CalculateVisibleRegions(window: Window, ghost k: nat)
      requires Valid() && k < |ring| && ring[k] == window
      requires window.visible.Valid() && window.rect.w >= 0 && window.rect.h >= 0
      modifies window.visible, window.visible.rects
      ensures window.visible.Valid()
      ensures SameCover(Occluded(window.Content(), InFrontOf(k)), window.visible.Contents())
      ensures forall i, j | 0 <= i < j < window.visible.count ::
                !Mergeable(window.visible.rects[i], window.visible.rects[j])
    {
      ghost var content, os := window.Content(), InFrontOf(k);
      StartFromContent(window);
      OccludeAll(window.visible, window, k, content, os);
      window.visible.MergeRectangles();
    }

    /** For occlusion only the window's own content counts. */
    method StartFromContent(window: Window)
      requires window.visible.Valid()
      modifies window.visible, window.visible.rects
      ensures window.visible.Valid() && window.visible.Contents() == [window.Content()]
    {
      var visible := window.visible;
      visible.count := 1;
      visible.rects[0] := window.rect;
      if !window.fullscreen {
        var r := visible.rects[0];
        visible.rects[0] := r.(x := r.x + BORDER_PX, y := r.y + BORDER_TOP_PX);
      }
    }

    /** The loop over the windows in front, which stops early when nothing is left. */
    method OccludeAll(visible: RectArray, window: Window, ghost k: nat, ghost content: Rect, ghost os: seq<Rect>)
      requires Valid() && k < |ring| && ring[k] == window && os == InFrontOf(k)
      requires visible.Valid() && visible.Contents() == [content] && NonNegative([content])
      modifies visible, visible.rects
      ensures visible.Valid() && NonNegative(visible.Contents())
      ensures visible.Contents() == Occluded(content, os)
    {
      ghost var j := 0;
      var occluder := head;
      while occluder != null && occluder != window
        invariant 0 <= j <= k && occluder == ring[j]
        invariant visible.Valid() && NonNegative(visible.Contents())
        invariant visible.Contents() == Occluded(content, os[..j])
        decreases k - j
      {
        InFront(k, j);
        OccludedStep(content, os, j);
        OccludeBy(visible, occluder);
        if visible.count == 0 {
          assert visible.Contents() == [];
          NothingComesBack(content, os, j + 1);
          return;
        }
        occluder := occluder.next;
        j := j + 1;
      }
      assert os[..k] == os;
    }

    /** The window at position `j` in front of window `k`, and the one behind it. */
    lemma InFront(k: nat, j: nat)
      requires Valid() && j < k < |ring|
      ensures InFrontOf(k)[j] == ring[j].Decorated()
      ensures ring[j].next == ring[j + 1] && ring[j] != ring[k]
    {
      assert Wired(j);
      FrontAt(k, j);
    }
  }

  // ---- A walk that leaves wrong regions ----

  lemma HidesItself(view: View, stack: WindowStack, visible: RectArray, px: int, py: int)
    requires !stack.usePpa && stack.RightFor(view, visible) && view.front == [view.content]
    ensures Count(visible.Contents(), px, py) == 0
  {
    var shown := visible.Contents();
    assert stack.RightIf(true, view, shown);
    assert Count(shown, px, py) == Count(view.Pieces(), px, py);
    OccludedCount(view.content, view.front, px, py);
    if Covers(view.content, px, py) {
      assert Covers(view.front[0], px, py);
    }
  }

  /** The window shows nothing of the rectangle. */
  ghost predicate Blank(w: Window, rect: Rect)
    reads w.visible, w.visible.rects
  {
    w.visible.Valid() && forall px, py {:trigger Covers(rect, px, py)} | Covers(rect, px, py) ::
      Count(w.visible.Contents(), px, py) == 0
  }

  /** A full-screen window that is alone is exposed. */
  lemma AloneIsExposed(stack: WindowStack, w: Window, px: int, py: int)
    requires stack.Valid() && stack.ring == [w] && w.fullscreen && Covers(w.rect, px, py)
    ensures stack.Exposed(0, px, py)
  {
  }

  /**
   * A walk meets a window whose task is gone in front of another one of the same place.
   * That one is alone afterwards and not hidden, shows nothing, and is believed to show
   * what is right; the next walk leaves it so.
   */
  method BlankAfterRemoval(rect: Rect) returns (stack: WindowStack, back: Window)
    requires rect.w > 0 && rect.h > 0
    ensures stack.Valid() && stack.ring == [back] && stack.regionsValid && !back.gone && Blank(back, rect)
    ensures forall px, py | Covers(rect, px, py) :: stack.Exposed(0, px, py)
  {
    stack, back := AfterOneWalk(rect);
    SceneOfOne(stack, back);
    ghost var visited, removed := stack.RenderWalk([View(rect, [], 1.0, false)]);
    forall px, py | Covers(rect, px, py) ensures stack.Exposed(0, px, py) {
      AloneIsExposed(stack, back, px, py);
    }
  }

  method AfterOneWalk(rect: Rect) returns (stack: WindowStack, back: Window)
    requires rect.w > 0 && rect.h > 0
    ensures fresh(stack) && fresh(back) && fresh(back.visible) && fresh(back.visible.rects)
    ensures stack.Valid() && stack.Displayable() && stack.ring == [back] && stack.regionsValid
    ensures !back.gone && back.rect == rect && back.fullscreen && back.buffer.None? && Blank(back, rect)
  {
    var front;
    stack, back, front := OneBehindTheOther(rect);
    ghost var visited, removed := stack.RenderWalk([View(rect, [], 1.0, true), View(rect, [rect], 1.0, false)]);
    FirstOfTwo(front, back, View(rect, [], 1.0, true), View(rect, [rect], 1.0, false),
               stack.ring, visited, removed);
    forall px, py | Covers(rect, px, py) ensures Count(back.visible.Contents(), px, py) == 0 {
      HidesItself(View(rect, [rect], 1.0, false), stack, back.visible, px, py);
    }
  }

  lemma FirstOfTwo(front: Window, back: Window, a: View, b: View,
                   after: seq<Window>, visited: seq<Window>, removed: Option<nat>)
    requires a.gone && !b.gone
    requires WalkEnds([front, back], after, [a, b], visited, removed)
    ensures removed == Some(0) && after == [back]
  {
    assert [a, b][0].gone;
  }

  method OneBehindTheOther(rect: Rect) returns (stack: WindowStack, back: Window, front: Window)
    requires rect.w > 0 && rect.h > 0
    ensures fresh(stack) && fresh(back) && fresh(front) && fresh(back.visible) && fresh(back.visible.rects)
    ensures fresh(front.visible) && fresh(front.visible.rects)
    ensures stack.Valid() && stack.ring == [front, back] && stack.Displayable() && !stack.regionsValid && !stack.usePpa
    ensures front.gone && !back.gone && back.rect == rect && back.fullscreen && back.buffer.None?
    ensures stack.SceneIs([View(rect, [], 1.0, true), View(rect, [rect], 1.0, false)])
  {
    stack, back := OneWindow(rect);
    front := new Window(rect, true);
    front.gone := true;
    stack.PushWindow(front);
    SceneOfTwo(stack, back, front);
  }

  method OneWindow(rect: Rect) returns (stack: WindowStack, w: Window)
    requires rect.w > 0 && rect.h > 0
    ensures fresh(stack) && fresh(w) && fresh(w.visible) && fresh(w.visible.rects) && w.visible.Valid()
    ensures stack.Valid() && stack.ring == [w] && !stack.regionsValid && !stack.usePpa
    ensures !w.gone && w.rect == rect && w.fullscreen && w.buffer.None?
  {
    stack := new WindowStack(false);
    w := new Window(rect, true);
    stack.PushWindow(w);
  }

  lemma SceneOfTwo(stack: WindowStack, back: Window, front: Window)
    requires stack.ring == [front, back] && front.fullscreen && back.fullscreen && front.rect == back.rect
    requires back.buffer.None? && front.buffer.None?
    ensures stack.SceneIs([View(front.rect, [], 1.0, front.gone), View(back.rect, [back.rect], 1.0, back.gone)])
  {
    assert stack.InFrontOf(1) == stack.InFrontOf(0) + [front.Decorated()];
  }

  lemma SceneOfOne(stack: WindowStack, w: Window)
    requires stack.ring == [w] && w.fullscreen && w.buffer.None?
    ensures stack.SceneIs([View(w.rect, [], 1.0, w.gone)])
  {
  }

  lemma SameCoverTwice(a: seq<Rect>, b: seq<Rect>, c: seq<Rect>)
    requires SameCover(a, b) && SameCover(b, c)
    ensures SameCover(a, c)
  {
    forall px, py ensures Count(c, px, py) == Count(a, px, py) {
      assert Count(c, px, py) == Count(b, px, py) == Count(a, px, py);
    }
  }

  // ---- Every run of the ring ----

  /** What happens to the ring: a window is pushed or removed, or ALT-TAB is pressed. */
  datatype RingStep = Push(w: Window) | Remove(w: Window) | Turn

  /** Where a window is in a list that has it. */
  function Position(ring: seq<Window>, w: Window): (k: nat)
    requires w in ring
    ensures k < |ring| && ring[k] == w
  {
    if ring[0] == w then 0 else 1 + Position(ring[1..], w)
  }

  /** The ring after one step. */
  ghost function Stepped(ring: seq<Window>, step: RingStep): seq<Window> {
    match step
    case Push(w) => [w] + ring
    case Remove(w) => if w in ring then var k := Position(ring, w); ring[k + 1..] + ring[..k] else ring
    case Turn => if ring == [] then ring else ring[1..] + [ring[0]]
  }

  ghost function Played(ring: seq<Window>, steps: seq<RingStep>): seq<Window> {
    if steps == [] then ring else Stepped(Played(ring, steps[..|steps| - 1]), steps[|steps| - 1])
  }

  lemma PlayedNext(ring: seq<Window>, steps: seq<RingStep>, i: nat)
    requires i < |steps|
    ensures Played(ring, steps[..i + 1]) == Stepped(Played(ring, steps[..i]), steps[i])
  {
    assert steps[..i + 1][..i] == steps[..i];
  }

  /** No window is pushed while it is in the ring: each is pushed once, when it is made. */
  ghost predicate PushesNew(ring: seq<Window>, steps: seq<RingStep>) {
    forall i | 0 <= i < |steps| && steps[i].Push? :: steps[i].w !in Played(ring, steps[..i])
  }

  /** A removal keeps the order of the other windows exactly when it is the front or the back one that goes. */
  lemma RemovalKeepsOrder(ring: seq<Window>, k: nat)
    requires k < |ring| && forall i, j | 0 <= i < j < |ring| :: ring[i] != ring[j]
    ensures ring[k + 1..] + ring[..k] == ring[..k] + ring[k + 1..] <==> k == 0 || k == |ring| - 1
  {
    var a, b := ring[k + 1..] + ring[..k], ring[..k] + ring[k + 1..];
    if 0 < k < |ring| - 1 {
      assert a[0] == ring[k + 1] && b[0] == ring[0];
    }
  }

  /** The windows that are in the ring are those that say so. */
  ghost predicate InStep(stack: WindowStack, ws: set<Window>)
    reads stack, ws
  {
    forall w | w in ws :: w in stack.ring <==> w.Attached()
  }

  lemma RingAttached(stack: WindowStack, k: nat)
    requires stack.Valid() && k < |stack.ring|
    ensures stack.ring[k].Attached()
  {
    assert stack.Wired(k) && stack.Wired(if k > 0 then k - 1 else |stack.ring| - 1);
  }

  lemma RestOfRing(ring: seq<Window>, k: nat)
    requires k < |ring| && forall i, j | 0 <= i < |ring| && 0 <= j < |ring| && ring[i] == ring[j] :: i == j
    ensures forall w :: w in ring[k + 1..] + ring[..k] <==> w in ring && w != ring[k]
  {
    forall i | 0 <= i < |ring| && i != k ensures ring[i] in ring[k + 1..] + ring[..k] {
      if i < k { assert ring[..k][i] == ring[i]; } else { assert ring[k + 1..][i - k - 1] == ring[i]; }
    }
  }

  lemma AllAttached(stack: WindowStack)
    requires stack.Valid()
    ensures forall w | w in stack.ring :: w.Attached()
  {
    forall w | w in stack.ring ensures w.Attached() {
      RingAttached(stack, Position(stack.ring, w));
    }
  }

  method RemoveAny(stack: WindowStack, w: Window, ghost ws: set<Window>)
    requires stack.Valid() && InStep(stack, ws) && w in ws
    modifies stack`head, stack`curNumWindows, stack`ring, stack.ring`next, stack.ring`prev, w`next, w`prev
    ensures stack.Valid() && InStep(stack, ws) && stack.ring == Stepped(old(stack.ring), Remove(w))
    ensures forall w | w in stack.ring :: w in old(stack.ring)
  {
    ghost var k := 0;
    if w in stack.ring {
      k := Position(stack.ring, w);
      RestOfRing(stack.ring, k);
    }
    stack.RemoveWindow(w, k);
    assert forall x | x in ws && x !in old(stack.ring) && x != w :: x.Attached() == old(x.Attached());
    AllAttached(stack);
  }

  /** One step of the ring. Every change of it marks the scene as damaged. */
  method PlayOne(stack: WindowStack, step: RingStep, ghost ws: set<Window>)
    requires stack.Valid() && InStep(stack, ws)
    requires (step.Push? ==> step.w in ws && step.w !in stack.ring) && (step.Remove? ==> step.w in ws)
    modifies stack, stack.ring, ws
    ensures stack.Valid() && InStep(stack, ws) && stack.ring == Stepped(old(stack.ring), step)
    ensures stack.regionsValid ==> old(stack.regionsValid) && stack.ring == old(stack.ring)
    ensures forall w | w in stack.ring :: w in old(stack.ring) || w in ws
  {
    match step
    case Push(w) =>
      stack.regionsValid := false;
      stack.PushWindow(w);
      AllAttached(stack);
    case Remove(w) =>
      stack.regionsValid := false;
      RemoveAny(stack, w, ws);
    case Turn =>
      if stack.head != null {
        stack.regionsValid := false;
        stack.AltTab();
      }
      AllAttached(stack);
  }

  /**
   * Any sequence of pushes, removals - also of windows that are not there - and turns
   * keeps one ring, with its length counted, and no ring that changed is believed to
   * show what is right.
   */
  method Play(stack: WindowStack, steps: seq<RingStep>, ghost ws: set<Window>)
    requires stack.Valid() && PushesNew(stack.ring, steps) && InStep(stack, ws)
    requires forall i | 0 <= i < |steps| && !steps[i].Turn? :: steps[i].w in ws
    modifies stack, stack.ring, ws
    ensures stack.Valid() && InStep(stack, ws)
    ensures stack.ring == Played(old(stack.ring), steps) && stack.curNumWindows == |stack.ring|
    ensures stack.ring != old(stack.ring) ==> !stack.regionsValid
  {
    for i := 0 to |steps|
      invariant stack.Valid() && InStep(stack, ws) && stack.ring == Played(old(stack.ring), steps[..i])
      invariant stack.regionsValid ==> old(stack.regionsValid) && stack.ring == old(stack.ring)
      invariant forall w | w in stack.ring :: w in old(stack.ring) || w in ws
    {
      PlayedNext(old(stack.ring), steps, i);
      PlayOne(stack, steps[i], ws);
    }
    assert steps[..|steps|] == steps;
  }

  lemma OccludedStep(content: Rect, os: seq<Rect>, j: nat)
    requires j < |os|
    ensures Occluded(content, os[..j + 1]) == Capped(SubtractAll(Occluded(content, os[..j]), os[j]))
  {
    assert os[..j + 1][..j] == os[..j];
  }

  /** Once nothing is visible nothing becomes visible behind more windows. */
  lemma {:induction false} NothingComesBack(content: Rect, os: seq<Rect>, j: nat)
    requires j <= |os| && Occluded(content, os[..j]) == []
    ensures Occluded(content, os) == []
    decreases |os| - j
  {
    if j < |os| {
      OccludedStep(content, os, j);
      NothingComesBack(content, os, j + 1);
    } else {
      assert os[..j] == os;
    }
  }

  /** One turn of the occlusion loop: the pieces of every rectangle outside the occluder, while they fit. */
  method OccludeBy(visible: RectArray, occluder: Window)
    requires visible.Valid() && NonNegative(visible.Contents())
    modifies visible, visible.rects
    ensures visible.Valid() && NonNegative(visible.Contents())
    ensures visible.Contents() == Capped(SubtractAll(old(visible.Contents()), occluder.Decorated()))
  {
    var newVisible := new RectArray();
    ghost var rs, o := visible.Contents(), occluder.Decorated();
    for j := 0 to visible.count
      invariant visible.Valid() && visible.Contents() == rs
      invariant newVisible.Valid() && fresh(newVisible) && fresh(newVisible.rects)
      invariant newVisible.Contents() == Capped(SubtractAll(rs[..j], o))
    {
      SubtractAllStep(rs, j, o);
      OccludeOne(newVisible, visible.rects[j], occluder, SubtractAll(rs[..j], o));
    }
    assert rs[..visible.count] == rs;
    SubtractAllNonNegative(rs, o);
    visible.Assign(newVisible);
  }

  lemma SubtractAllStep(rs: seq<Rect>, j: nat, o: Rect)
    requires j < |rs|
    ensures SubtractAll(rs[..j + 1], o) == SubtractAll(rs[..j], o) + Subtract(rs[j], o)
  {
    assert rs[..j + 1][..j] == rs[..j];
  }

  method OccludeOne(to: RectArray, rect: Rect, occluder: Window, ghost all: seq<Rect>)
    requires to.Valid() && to.Contents() == Capped(all)
    modifies to, to.rects
    ensures to.Valid() && to.Contents() == Capped(all + Subtract(rect, occluder.Decorated()))
  {
    var occluderRect := occluder.rect;
    if !occluder.fullscreen {
      occluderRect := occluderRect.(w := occluderRect.w + BORDER_PX * 2);
      occluderRect := occluderRect.(h := occluderRect.h + (BORDER_TOP_PX + BORDER_PX));
    }
    AppendPieces(to, Subtract(rect, occluderRect), all);
  }

  method AppendPieces(to: RectArray, pieces: seq<Rect>, ghost all: seq<Rect>)
    requires to.Valid() && to.Contents() == Capped(all)
    modifies to, to.rects
    ensures to.Valid() && to.Contents() == Capped(all + pieces)
  {
    for k := 0 to |pieces|
      invariant to.Valid() && to.Contents() == Capped(all + pieces[..k])
    {
      assert all + pieces[..k + 1] == all + pieces[..k] + [pieces[k]];
      if to.count < MAX_VISIBLE_RECTS {
        var stored := to.Push(pieces[k]);
      }
    }
    assert pieces[..|pieces|] == pieces;
  }
}
