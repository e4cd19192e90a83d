// The workaround for framebuffer strips whose height is 32 * n + 1: such
// rectangles are split in two until none is left.
module PpaSplit {
  import opened Rects
  import opened RectMath

  /** The C conversion of `height / scale` to an integer: towards zero. */
  function FramebufferHeight(height: int, scale: real): int
    requires scale > 0.0
  {
    if height >= 0 then (height as real / scale).Floor else -((-height) as real / scale).Floor
  }

  predicate Problematic(height: int, scale: real)
    requires scale > 0.0
  {
    var fb := FramebufferHeight(height, scale);
    fb > 32 && fb % 32 == 1
  }

  lemma ProblematicIsPositive(height: int, scale: real)
    requires scale > 0.0 && Problematic(height, scale)
    ensures height >= 1
  {
  }

  /** The scaled height has `n` blocks of 32 rows, and one whole row and less than a second one besides. */
  ghost predicate OneRowOver(n: int, height: int, scale: real) {
    (32 * n + 1) as real * scale <= height as real < (32 * n + 2) as real * scale
  }

  lemma AtLeastRows(height: int, scale: real, n: int)
    requires scale > 0.0
    ensures n <= (height as real / scale).Floor <==> n as real * scale <= height as real
  {
    var x := height as real / scale;
    assert x * scale == height as real;
    assert n as real <= x ==> n as real * scale <= x * scale;
    assert n as real > x ==> n as real * scale > x * scale;
  }

  /** A height is problematic exactly when it leaves one row over after one or more blocks of 32. */
  lemma ProblematicExactly(height: int, scale: real)
    requires scale > 0.0
    ensures Problematic(height, scale) <==> exists n :: n >= 1 && OneRowOver(n, height, scale)
  {
    var fb := (height as real / scale).Floor;
    forall n ensures OneRowOver(n, height, scale) <==> fb == 32 * n + 1 {
      AtLeastRows(height, scale, 32 * n + 1);
      AtLeastRows(height, scale, 32 * n + 2);
    }
    AtLeastRows(height, scale, 0);
    if Problematic(height, scale) {
      assert OneRowOver(fb / 32, height, scale);
    }
  }

  /** What one rectangle becomes. */
  function Halves(r: Rect, scale: real): seq<Rect>
    requires scale > 0.0
  {
    if Problematic(r.h, scale) then
      var first := r.h / 2 - 1;
      [r.(h := first), r.(y := r.y + first, h := r.h - first)]
    else [r]
  }

  /** A problematic rectangle is cut in an upper part and a lower one of two rows more, or three for an odd height. */
  lemma HalvesStack(r: Rect, scale: real)
    requires scale > 0.0
    ensures if Problematic(r.h, scale) then
              && |Halves(r, scale)| == 2
              && var a, b := Halves(r, scale)[0], Halves(r, scale)[1];
                 && a.x == b.x == r.x && a.w == b.w == r.w && a.y == r.y && a.y + a.h == b.y && a.h + b.h == r.h
                 && b.h - a.h == if r.h % 2 == 0 then 2 else 3
            else Halves(r, scale) == [r]
  {
  }

  function SplitAll(rs: seq<Rect>, scale: real): seq<Rect>
    requires scale > 0.0
  {
    if rs == [] then [] else SplitAll(rs[..|rs| - 1], scale) + Halves(rs[|rs| - 1], scale)
  }

  /** The number of rectangles that get split. */
  function Splits(rs: seq<Rect>, scale: real): nat
    requires scale > 0.0
  {
    if rs == [] then 0
    else Splits(rs[..|rs| - 1], scale) + (if Problematic(rs[|rs| - 1].h, scale) then 1 else 0)
  }

  lemma {:induction false} SplitAllLength(rs: seq<Rect>, scale: real)
    requires scale > 0.0
    ensures |SplitAll(rs, scale)| == |rs| + Splits(rs, scale)
  {
    if rs != [] {
      SplitAllLength(rs[..|rs| - 1], scale);
    }
  }

  /** Appends the next of a list of rectangles of which the array holds the first 64; counts it when it does not fit. */
  method Offer(to: RectArray, r: Rect, ghost all: seq<Rect>) returns (lost: nat)
    requires to.Valid() && to.Contents() == Capped(all)
    modifies to, to.rects
    ensures to.Valid() && to.Contents() == Capped(all + [r])
    ensures to.count + lost == old(to.count) + 1
  {
    var stored := to.Push(r);
    lost := if stored then 0 else 1;
  }

  /** The body of the split loop: one rectangle of the old array goes to the new one. */
  method SplitOne(to: RectArray, rect: Rect, scale: real, ghost all: seq<Rect>) returns (split: bool, lost: nat)
    requires to.Valid() && to.Contents() == Capped(all) && scale > 0.0
    modifies to, to.rects
    ensures to.Valid() && to.Contents() == Capped(all + Halves(rect, scale))
    ensures to.count + lost == old(to.count) + |Halves(rect, scale)|
    ensures split == Problematic(rect.h, scale)
  {
    split := Problematic(rect.h, scale);
    if split {
      var firstHalf := rect.h / 2 - 1;
      var secondHalf := rect.h - firstHalf;
      var first, second := rect.(h := firstHalf), rect.(y := rect.y + firstHalf, h := secondHalf);
      var l1 := Offer(to, first, all);
      var l2 := Offer(to, second, all + [first]);
      lost := l1 + l2;
      assert all + Halves(rect, scale) == all + [first] + [second];
    } else {
      lost := Offer(to, rect, all);
    }
  }

  /** ppa_workaround_split_rects; `lost` is what it adds to `*dropped`. */
  method SplitRects(visible: RectArray, scale: real) returns (split: bool, lost: nat)
    requires visible.Valid() && scale > 0.0
    modifies visible, visible.rects
    ensures visible.Valid()
    ensures visible.Contents() == Capped(SplitAll(old(visible.Contents()), scale))
    ensures split <==> Splits(old(visible.Contents()), scale) > 0
    ensures visible.count == old(visible.count) + Splits(old(visible.Contents()), scale) - lost
  {
    var newVisible := new RectArray();
    split, lost := false, 0;
    ghost var rs := visible.Contents();
    for i := 0 to visible.count
      invariant visible.Valid() && visible.Contents() == rs
      invariant newVisible.Valid() && fresh(newVisible) && fresh(newVisible.rects)
      invariant newVisible.Contents() == Capped(SplitAll(rs[..i], scale))
      invariant newVisible.count + lost == |SplitAll(rs[..i], scale)|
      invariant split <==> Splits(rs[..i], scale) > 0
    {
      var rect := visible.rects[i];
      SplitAllStep(rs, i, scale);
      var s, l := SplitOne(newVisible, rect, scale, SplitAll(rs[..i], scale));
      split, lost := split || s, lost + l;
    }
    assert rs[..visible.count] == rs;
    SplitAllLength(rs, scale);
    visible.Assign(newVisible);
  }

  lemma SplitAllStep(rs: seq<Rect>, i: nat, scale: real)
    requires scale > 0.0 && i < |rs|
    ensures SplitAll(rs[..i + 1], scale) == SplitAll(rs[..i], scale) + Halves(rs[i], scale)
    ensures Splits(rs[..i + 1], scale) ==
            Splits(rs[..i], scale) + if Problematic(rs[i].h, scale) then 1 else 0
  {
    assert rs[..i + 1][..i] == rs[..i] && rs[..i + 1][i] == rs[i];
  }

  /** Something is split exactly when some height is problematic. */
  lemma {:induction false} FirstProblematic(rs: seq<Rect>, scale: real) returns (i: nat)
    requires scale > 0.0
    ensures i <= |rs| && (i < |rs| <==> Splits(rs, scale) > 0)
    ensures i < |rs| ==> Problematic(rs[i].h, scale)
    ensures forall k | 0 <= k < i :: !Problematic(rs[k].h, scale)
  {
    if rs == [] {
      i := 0;
    } else {
      i := FirstProblematic(rs[..|rs| - 1], scale);
      if i == |rs| - 1 && !Problematic(rs[i].h, scale) {
        i := |rs|;
      }
    }
  }

  // ---- Termination ----
  //
  // The first problematic rectangle is replaced by a lower one and everything
  // before it stays, so the heights decrease lexicographically. A height between
  // `low` and `low + base - 1` is a digit, and the array a number of 64 digits.

  ghost function Digit(rs: seq<Rect>, i: nat, low: int): int {
    if i < |rs| then rs[i].h - low else 0
  }

  ghost function Number(rs: seq<Rect>, n: nat, low: int, base: int): int {
    if n == 0 then 0 else Number(rs, n - 1, low, base) * base + Digit(rs, n - 1, low)
  }

  ghost predicate Within(rs: seq<Rect>, low: int, base: int) {
    base > 0 && forall i | 0 <= i < |rs| :: low <= rs[i].h < low + base
  }

  lemma {:induction false} NumberNonNegative(rs: seq<Rect>, n: nat, low: int, base: int)
    requires Within(rs, low, base)
    ensures Number(rs, n, low, base) >= 0
  {
    if n > 0 {
      NumberNonNegative(rs, n - 1, low, base);
      assert Number(rs, n - 1, low, base) * base >= 0;
    }
  }

  lemma {:induction false} NumberSame(rs: seq<Rect>, ts: seq<Rect>, n: nat, low: int, base: int)
    requires forall i | 0 <= i < n :: Digit(rs, i, low) == Digit(ts, i, low)
    ensures Number(rs, n, low, base) == Number(ts, n, low, base)
  {
    if n > 0 {
      NumberSame(rs, ts, n - 1, low, base);
    }
  }

  lemma DigitsDecide(x: int, y: int, base: int)
    requires x < y && base > 0
    ensures x * base + base <= y * base
  {
    assert (y - x - 1) * base >= 0;
    assert (y - x - 1) * base == y * base - x * base - base;
  }

  lemma {:induction false} NumberDecreases(rs: seq<Rect>, ts: seq<Rect>, i: nat, n: nat, low: int, base: int)
    requires Within(rs, low, base) && Within(ts, low, base)
    requires i < n && Digit(ts, i, low) < Digit(rs, i, low)
    requires forall k | 0 <= k < i :: Digit(rs, k, low) == Digit(ts, k, low)
    ensures Number(ts, n, low, base) < Number(rs, n, low, base)
    decreases n
  {
    if n == i + 1 {
      NumberSame(rs, ts, i, low, base);
    } else {
      NumberDecreases(rs, ts, i, n - 1, low, base);
      DigitsDecide(Number(ts, n - 1, low, base), Number(rs, n - 1, low, base), base);
    }
  }

  lemma {:induction false} SplitAllPrefix(rs: seq<Rect>, i: nat, scale: real)
    requires scale > 0.0 && i < |rs| && Problematic(rs[i].h, scale)
    requires forall k | 0 <= k < i :: !Problematic(rs[k].h, scale)
    ensures |SplitAll(rs, scale)| > i && SplitAll(rs, scale)[..i] == rs[..i]
    ensures SplitAll(rs, scale)[i] == Halves(rs[i], scale)[0]
    decreases |rs|
  {
    if |rs| == i + 1 {
      NothingToSplit(rs[..i], scale);
    } else {
      SplitAllPrefix(rs[..|rs| - 1], i, scale);
      assert rs[..|rs| - 1][..i] == rs[..i];
    }
  }

  lemma {:induction false} NothingToSplit(rs: seq<Rect>, scale: real)
    requires scale > 0.0 && forall k | 0 <= k < |rs| :: !Problematic(rs[k].h, scale)
    ensures SplitAll(rs, scale) == rs
  {
    if rs != [] {
      NothingToSplit(rs[..|rs| - 1], scale);
    }
  }

  /** Splitting stays within the heights it started from, -1 and 2. */
  lemma {:induction false} SplitAllWithin(rs: seq<Rect>, scale: real, low: int, base: int)
    requires scale > 0.0 && Within(rs, low, base) && low <= -1 && low + base > 2
    ensures Within(SplitAll(rs, scale), low, base)
  {
    if rs != [] {
      var r := rs[|rs| - 1];
      SplitAllWithin(rs[..|rs| - 1], scale, low, base);
      if Problematic(r.h, scale) {
        ProblematicIsPositive(r.h, scale);
      }
    }
  }

  lemma SplitDecreases(rs: seq<Rect>, scale: real, low: int, base: int)
    requires scale > 0.0 && |rs| <= MAX_VISIBLE_RECTS && Splits(rs, scale) > 0
    requires Within(rs, low, base) && low <= -1 && low + base > 2
    ensures var ts := Capped(SplitAll(rs, scale));
            Within(ts, low, base) &&
            Number(ts, MAX_VISIBLE_RECTS, low, base) < Number(rs, MAX_VISIBLE_RECTS, low, base)
  {
    var i := FirstProblematic(rs, scale);
    SplitAllPrefix(rs, i, scale);
    SplitAllWithin(rs, scale, low, base);
    ProblematicIsPositive(rs[i].h, scale);
    var all := SplitAll(rs, scale);
    forall k | 0 <= k < i ensures all[k] == rs[k] {
      assert all[..i][k] == rs[..i][k];
    }
    NumberDecreases(rs, Capped(all), i, MAX_VISIBLE_RECTS, low, base);
  }

  /** Bounds for the heights of an array. */
  lemma {:induction false} Bounds(rs: seq<Rect>) returns (low: int, base: int)
    ensures Within(rs, low, base) && low <= -1 && low + base > 2
  {
    if rs == [] {
      low, base := -1, 4;
    } else {
      low, base := Bounds(rs[..|rs| - 1]);
      var h := rs[|rs| - 1].h;
      if h < low {
        low, base := h, base + (low - h);
      } else if h >= low + base {
        base := h - low + 1;
      }
      forall i | 0 <= i < |rs| ensures low <= rs[i].h < low + base {
        if i < |rs| - 1 { assert rs[..|rs| - 1][i] == rs[i]; }
      }
    }
  }

  // ---- What the loop does to the covered pixels ----

  /** A strip of one row that is to be split: its second half starts a row above it. */
  predicate Grows(r: Rect, scale: real)
    requires scale > 0.0
  {
    r.h == 1 && r.w > 0 && Problematic(r.h, scale)
  }

  ghost predicate NoneGrows(rs: seq<Rect>, scale: real)
    requires scale > 0.0
  {
    forall i | 0 <= i < |rs| :: !Grows(rs[i], scale)
  }

  /** A one row strip made by a split is not problematic: only splits of 4 and 5 rows make one. */
  lemma SmallHalvesAreFine(h: int, scale: real)
    requires scale > 0.0 && Problematic(h, scale) && 2 <= h
    ensures Problematic(h / 2 - 1, scale) ==> h / 2 - 1 >= 2
    ensures h - (h / 2 - 1) >= 2
  {
    if h / 2 - 1 == 1 && Problematic(1, scale) {
      OneRowExcludesOthers(scale);
    }
    if h / 2 - 1 < 1 && Problematic(h / 2 - 1, scale) {
      ProblematicIsPositive(h / 2 - 1, scale);
    }
  }

  lemma DivisionScales(n: real, scale: real)
    requires scale > 0.0
    ensures n / scale == n * (1.0 / scale)
  {
    var a, b := n / scale, 1.0 / scale;
    assert a * scale == n && b * scale == 1.0;
    assert (n * b) * scale == n * (b * scale);
    assert (a - n * b) * scale == 0.0;
  }

  /** If one row is problematic then two, four and five rows are not. */
  lemma OneRowExcludesOthers(scale: real)
    requires scale > 0.0 && Problematic(1, scale)
    ensures !Problematic(2, scale) && !Problematic(4, scale) && !Problematic(5, scale)
  {
    DivisionScales(2.0, scale);
    DivisionScales(4.0, scale);
    DivisionScales(5.0, scale);
    FloorMultiples(1.0 / scale, (1.0 / scale).Floor);
  }

  lemma FloorMultiples(q: real, f: int)
    requires f == q.Floor
    ensures 2 * f <= (2.0 * q).Floor <= 2 * f + 1
    ensures 4 * f <= (4.0 * q).Floor <= 4 * f + 3
    ensures 5 * f <= (5.0 * q).Floor <= 5 * f + 4
  {
  }

  /** Splitting covers every pixel as often as before, and the row above a strip that grows once more. */
  lemma HalvesCount(r: Rect, scale: real, px: int, py: int)
    requires scale > 0.0
    ensures Count(Halves(r, scale), px, py) == One(Covers(r, px, py)) +
            if Grows(r, scale) then One(r.x <= px < r.x + r.w && py == r.y - 1) else 0
  {
    if Problematic(r.h, scale) {
      ProblematicIsPositive(r.h, scale);
      var first := r.h / 2 - 1;
      var a, b := r.(h := first), r.(y := r.y + first, h := r.h - first);
      assert Halves(r, scale) == [a] + [b];
      CountConcat([a], [b], px, py);
      CountOne(a, px, py);
      CountOne(b, px, py);
    } else {
      CountOne(r, px, py);
    }
  }

  /** One pass never covers a pixel less often, and as often if no strip grows. */
  lemma {:induction false} SplitAllCount(rs: seq<Rect>, scale: real, px: int, py: int)
    requires scale > 0.0
    ensures Count(SplitAll(rs, scale), px, py) >= Count(rs, px, py)
    ensures NoneGrows(rs, scale) ==> Count(SplitAll(rs, scale), px, py) == Count(rs, px, py)
  {
    if rs != [] {
      var front, r := rs[..|rs| - 1], rs[|rs| - 1];
      SplitAllCount(front, scale, px, py);
      CountConcat(SplitAll(front, scale), Halves(r, scale), px, py);
      HalvesCount(r, scale, px, py);
      CountAt(rs, |rs| - 1, px, py);
    }
  }

  /** The row above a strip that grows is covered more often after the pass. */
  lemma {:induction false} StripGrows(rs: seq<Rect>, i: nat, scale: real)
    requires scale > 0.0 && i < |rs| && Grows(rs[i], scale)
    ensures Count(SplitAll(rs, scale), rs[i].x, rs[i].y - 1) > Count(rs, rs[i].x, rs[i].y - 1)
  {
    var front, r := rs[..|rs| - 1], rs[|rs| - 1];
    var px, py := rs[i].x, rs[i].y - 1;
    SplitAllCount(front, scale, px, py);
    CountConcat(SplitAll(front, scale), Halves(r, scale), px, py);
    HalvesCount(r, scale, px, py);
    CountAt(rs, |rs| - 1, px, py);
    if i < |rs| - 1 {
      StripGrows(front, i, scale);
    }
  }

  lemma {:induction false} SplitAllGrowsNone(rs: seq<Rect>, scale: real)
    requires scale > 0.0 && NoneGrows(rs, scale)
    ensures NoneGrows(SplitAll(rs, scale), scale)
  {
    if rs != [] {
      var r := rs[|rs| - 1];
      SplitAllGrowsNone(rs[..|rs| - 1], scale);
      if Problematic(r.h, scale) && r.h >= 2 {
        SmallHalvesAreFine(r.h, scale);
      }
    }
  }

  /** No pixel is covered more often than before. */
  ghost predicate NoMoreCover(a: seq<Rect>, b: seq<Rect>) {
    forall px, py {:trigger Count(b, px, py)} :: Count(b, px, py) <= Count(a, px, py)
  }

  /** No pixel is covered less often than before. */
  ghost predicate NoLessCover(a: seq<Rect>, b: seq<Rect>) {
    forall px, py {:trigger Count(b, px, py)} :: Count(a, px, py) <= Count(b, px, py)
  }

  lemma SplitStepCover(rs: seq<Rect>, scale: real)
    requires scale > 0.0
    ensures var ts := Capped(SplitAll(rs, scale));
            && (NoneGrows(rs, scale) ==> NoneGrows(ts, scale) && NoMoreCover(rs, ts))
            && (|SplitAll(rs, scale)| <= MAX_VISIBLE_RECTS ==> NoLessCover(rs, ts))
            && (|SplitAll(rs, scale)| <= MAX_VISIBLE_RECTS && !NoneGrows(rs, scale) ==> !SameCover(rs, ts))
  {
    var all := SplitAll(rs, scale);
    if NoneGrows(rs, scale) {
      SplitAllGrowsNone(rs, scale);
      forall px, py ensures Count(Capped(all), px, py) <= Count(rs, px, py) {
        SplitAllCount(rs, scale, px, py);
        CappedCount(all, px, py);
      }
    } else {
      var i :| 0 <= i < |rs| && Grows(rs[i], scale);
      StripGrows(rs, i, scale);
    }
    forall px, py | |all| <= MAX_VISIBLE_RECTS ensures Count(rs, px, py) <= Count(all, px, py) {
      SplitAllCount(rs, scale, px, py);
    }
  }

  /** The cover only grows over several passes, so what has grown stays grown. */
  lemma CoverStaysDifferent(a: seq<Rect>, b: seq<Rect>, c: seq<Rect>)
    requires NoLessCover(a, b) && NoLessCover(b, c)
    ensures NoLessCover(a, c)
    ensures !SameCover(a, b) || !SameCover(b, c) ==> !SameCover(a, c)
  {
    forall px, py ensures Count(a, px, py) <= Count(c, px, py) {
      assert Count(a, px, py) <= Count(b, px, py) <= Count(c, px, py);
    }
    if SameCover(a, c) {
      forall px, py ensures Count(a, px, py) == Count(b, px, py) == Count(c, px, py) {
        assert Count(a, px, py) <= Count(b, px, py) <= Count(c, px, py);
        assert Count(c, px, py) == Count(a, px, py);
      }
    }
  }

  lemma SameWhenNeither(a: seq<Rect>, b: seq<Rect>)
    requires NoMoreCover(a, b) && NoLessCover(a, b)
    ensures SameCover(a, b)
  {
    forall px, py ensures Count(a, px, py) == Count(b, px, py) {
      assert Count(b, px, py) <= Count(a, px, py);
    }
  }

  // ---- What the loop drops ----

  /**
   * How many strips one strip becomes in the end. The second half of two or three rows
   * is as high as the whole, so such a strip is split until the array is full, and
   * counts for more than fit.
   */
  function Pieces(h: int, scale: real): (n: nat)
    requires scale > 0.0
    ensures n >= 1
  {
    if !Problematic(h, scale) then 1
    else if h <= 1 then 2
    else if h <= 3 then MAX_VISIBLE_RECTS + 1
    else Pieces(h / 2 - 1, scale) + Pieces(h - (h / 2 - 1), scale)
  }

  function AllPieces(rs: seq<Rect>, scale: real): (n: nat)
    requires scale > 0.0
    ensures n >= |rs|
  {
    if rs == [] then 0 else AllPieces(rs[..|rs| - 1], scale) + Pieces(rs[|rs| - 1].h, scale)
  }

  lemma {:induction false} AllPiecesConcat(rs: seq<Rect>, ts: seq<Rect>, scale: real)
    requires scale > 0.0
    ensures AllPieces(rs + ts, scale) == AllPieces(rs, scale) + AllPieces(ts, scale)
  {
    if ts == [] {
      assert rs + ts == rs;
    } else {
      AllPiecesConcat(rs, ts[..|ts| - 1], scale);
      assert (rs + ts)[..|rs + ts| - 1] == rs + ts[..|ts| - 1];
    }
  }

  lemma {:induction false} HalvesPieces(r: Rect, scale: real)
    requires scale > 0.0
    ensures AllPieces(Halves(r, scale), scale) >= Pieces(r.h, scale)
    ensures Pieces(r.h, scale) <= MAX_VISIBLE_RECTS ==> AllPieces(Halves(r, scale), scale) == Pieces(r.h, scale)
  {
    if Problematic(r.h, scale) {
      ProblematicIsPositive(r.h, scale);
      var first := r.h / 2 - 1;
      var a, b := r.(h := first), r.(y := r.y + first, h := r.h - first);
      assert Halves(r, scale) == [a] + [b];
      assert [a][..0] == [] && [b][..0] == [];
      AllPiecesConcat([a], [b], scale);
      if r.h == 1 {
        OneRowExcludesOthers(scale);
        if Problematic(-1, scale) { ProblematicIsPositive(-1, scale); }
      }
    } else {
      assert [r][..0] == [];
    }
  }

  /** A pass keeps the number of pieces in the end, as long as they all fit. */
  lemma {:induction false} SplitAllPieces(rs: seq<Rect>, scale: real)
    requires scale > 0.0
    ensures AllPieces(SplitAll(rs, scale), scale) >= AllPieces(rs, scale)
    ensures AllPieces(rs, scale) <= MAX_VISIBLE_RECTS ==> AllPieces(SplitAll(rs, scale), scale) == AllPieces(rs, scale)
  {
    if rs != [] {
      var front, r := rs[..|rs| - 1], rs[|rs| - 1];
      SplitAllPieces(front, scale);
      HalvesPieces(r, scale);
      AllPiecesConcat(SplitAll(front, scale), Halves(r, scale), scale);
    }
  }

  lemma {:induction false} NothingToSplitPieces(rs: seq<Rect>, scale: real)
    requires scale > 0.0 && forall k | 0 <= k < |rs| :: !Problematic(rs[k].h, scale)
    ensures AllPieces(rs, scale) == |rs|
  {
    if rs != [] {
      NothingToSplitPieces(rs[..|rs| - 1], scale);
    }
  }

  /** A strip of two or three rows that is to be split is more than fits. */
  lemma {:induction false} ThinStripNeverFits(rs: seq<Rect>, i: nat, scale: real)
    requires scale > 0.0 && i < |rs| && 2 <= rs[i].h <= 3 && Problematic(rs[i].h, scale)
    ensures AllPieces(rs, scale) > MAX_VISIBLE_RECTS
  {
    if i < |rs| - 1 {
      ThinStripNeverFits(rs[..|rs| - 1], i, scale);
    }
  }

  /** There are scales at which one row is to be split, and at which two and three rows are. */
  lemma FailingScales()
    ensures Problematic(1, 1.0 / 33.0) && Problematic(2, 2.0 / 33.0) && Problematic(3, 3.0 / 33.0)
    ensures NoneGrows([Rect(0, 0, 1, 2)], 2.0 / 33.0) && AllPieces([Rect(0, 0, 1, 2)], 2.0 / 33.0) > MAX_VISIBLE_RECTS
    ensures !NoneGrows([Rect(0, 0, 1, 1)], 1.0 / 33.0) && AllPieces([Rect(0, 0, 1, 1)], 1.0 / 33.0) == 2
  {
    assert [Rect(0, 0, 1, 2)][..0] == [] && [Rect(0, 0, 1, 1)][..0] == [];
    assert Grows([Rect(0, 0, 1, 1)][0], 1.0 / 33.0);
  }

  /** What the passes so far have kept of the array they started from. */
  ghost predicate KeptSoFar(rs0: seq<Rect>, rs: seq<Rect>, dropped: nat, first: bool, scale: real)
    requires scale > 0.0
  {
    && (NoneGrows(rs0, scale) ==> NoneGrows(rs, scale) && NoMoreCover(rs0, rs))
    && (dropped == 0 ==> NoLessCover(rs0, rs) && (NoneGrows(rs0, scale) ==> SameCover(rs0, rs)))
    && (dropped == 0 && !first && !NoneGrows(rs0, scale) ==> !SameCover(rs0, rs))
    && (first ==> rs == rs0)
    && (dropped == 0 ==> AllPieces(rs, scale) >= AllPieces(rs0, scale))
    && (AllPieces(rs0, scale) <= MAX_VISIBLE_RECTS ==> dropped == 0 && AllPieces(rs, scale) == AllPieces(rs0, scale))
  }

  lemma {:induction false} PassKeeps(rs0: seq<Rect>, rs: seq<Rect>, dropped: nat, first: bool, lost: nat, scale: real)
    requires scale > 0.0 && |rs| <= MAX_VISIBLE_RECTS && KeptSoFar(rs0, rs, dropped, first, scale)
    requires |Capped(SplitAll(rs, scale))| == |SplitAll(rs, scale)| - lost
    ensures KeptSoFar(rs0, Capped(SplitAll(rs, scale)), dropped + lost, false, scale)
  {
    var ts := Capped(SplitAll(rs, scale));
    SplitAllPieces(rs, scale);
    SplitStepCover(rs, scale);
    if NoneGrows(rs0, scale) {
      forall px, py ensures Count(ts, px, py) <= Count(rs0, px, py) {
        assert Count(ts, px, py) <= Count(rs, px, py) <= Count(rs0, px, py);
      }
    }
    if dropped + lost == 0 {
      CoverStaysDifferent(rs0, rs, ts);
      if NoneGrows(rs0, scale) {
        SameWhenNeither(rs0, ts);
      }
    }
  }

  lemma {:induction false} StartKept(rs: seq<Rect>, scale: real)
    requires scale > 0.0
    ensures KeptSoFar(rs, rs, 0, true, scale)
  {
  }

  /**
   * The loop around ppa_workaround_split_rects, for every positive scale. At the end no
   * height is problematic. Nothing is dropped exactly when all pieces fit, and then
   * every pixel is covered as often as before exactly when no strip of one row grows.
   */
  method SplitUntilFine(visible: RectArray, scale: real) returns (dropped: nat)
    requires visible.Valid() && scale > 0.0
    modifies visible, visible.rects
    ensures visible.Valid()
    ensures Splits(visible.Contents(), scale) == 0
    ensures forall i | 0 <= i < visible.count :: !Problematic(visible.rects[i].h, scale)
    ensures dropped == 0 <==> AllPieces(old(visible.Contents()), scale) <= MAX_VISIBLE_RECTS
    ensures dropped == 0 ==> visible.count == AllPieces(old(visible.Contents()), scale)
    ensures dropped == 0 ==>
              (SameCover(old(visible.Contents()), visible.Contents()) <==> NoneGrows(old(visible.Contents()), scale))
    ensures NoneGrows(old(visible.Contents()), scale) ==> NoMoreCover(old(visible.Contents()), visible.Contents())
  {
    dropped := 0;
    ghost var rs0 := visible.Contents();
    ghost var low, base := Bounds(rs0);
    ghost var first := true;
    var split := true;
    StartKept(rs0, scale);
    while split
      invariant visible.Valid()
      invariant Within(visible.Contents(), low, base)
      invariant first ==> split
      invariant !split ==> Splits(visible.Contents(), scale) == 0
      invariant KeptSoFar(rs0, visible.Contents(), dropped, first, scale)
      decreases Number(visible.Contents(), MAX_VISIBLE_RECTS, low, base), split
    {
      ghost var rs := visible.Contents();
      NumberNonNegative(rs, MAX_VISIBLE_RECTS, low, base);
      var lost;
      split, lost := SplitRects(visible, scale);
      SplitAllLength(rs, scale);
      PassKeeps(rs0, rs, dropped, first, lost, scale);
      dropped, first := dropped + lost, false;
      if split {
        SplitDecreases(rs, scale, low, base);
      } else {
        var i := FirstProblematic(rs, scale);
        NothingToSplit(rs, scale);
      }
    }
    var i := FirstProblematic(visible.Contents(), scale);
    NothingToSplitPieces(visible.Contents(), scale);
  }
}
