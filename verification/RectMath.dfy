// The fixed-size rectangle array of the compositor and the merge that shrinks it
// in place.
module RectMath {
  import opened Rects

  const MAX_VISIBLE_RECTS: nat := 64

  /** What an array keeps of a list of rectangles appended one by one. */
  function Capped(rs: seq<Rect>): seq<Rect> {
    if |rs| <= MAX_VISIBLE_RECTS then rs else rs[..MAX_VISIBLE_RECTS]
  }

  lemma CappedCount(rs: seq<Rect>, px: int, py: int)
    ensures Count(Capped(rs), px, py) <= Count(rs, px, py)
  {
    if |rs| > MAX_VISIBLE_RECTS {
      assert rs == rs[..MAX_VISIBLE_RECTS] + rs[MAX_VISIBLE_RECTS..];
      CountConcat(rs[..MAX_VISIBLE_RECTS], rs[MAX_VISIBLE_RECTS..], px, py);
    }
  }

  predicate JoinsRight(a: Rect, b: Rect) {
    a.y == b.y && a.h == b.h && a.x + a.w == b.x
  }

  predicate JoinsBelow(a: Rect, b: Rect) {
    a.x == b.x && a.w == b.w && a.y + a.h == b.y
  }

  /** The two share a full edge. */
  predicate Mergeable(a: Rect, b: Rect) {
    JoinsRight(a, b) || JoinsRight(b, a) || JoinsBelow(a, b) || JoinsBelow(b, a)
  }

  /** A rectangle covers just the pixels of two others, which have none in common. */
  ghost predicate Unites(r: Rect, a: Rect, b: Rect) {
    forall px, py {:trigger Covers(r, px, py)} {:trigger Covers(a, px, py)} {:trigger Covers(b, px, py)} ::
      One(Covers(r, px, py)) == One(Covers(a, px, py)) + One(Covers(b, px, py))
  }

  /** Two rectangles with pixels can be merged exactly when they make up one together. */
  lemma MergeableExactly(a: Rect, b: Rect)
    requires a.w > 0 && a.h > 0 && b.w > 0 && b.h > 0
    ensures Mergeable(a, b) <==> exists r :: Unites(r, a, b)
  {
    if Mergeable(a, b) {
      var x, y := Min(a.x, b.x), Min(a.y, b.y);
      var r := if a.y == b.y && a.h == b.h && (JoinsRight(a, b) || JoinsRight(b, a)) then Rect(x, y, a.w + b.w, a.h)
               else Rect(x, y, a.w, a.h + b.h);
      assert Unites(r, a, b);
    }
    if r :| Unites(r, a, b) {
      assert Covers(a, a.x, a.y) && Covers(b, b.x, b.y);
      assert Covers(r, a.x, a.y) && Covers(r, r.x, r.y);
      if Covers(a, r.x, r.y) {
        FirstOfUnited(r, a, b);
      } else {
        assert Covers(b, r.x, r.y);
        FirstOfUnited(r, b, a);
      }
    }
  }

  /** The one of two united rectangles that has the first pixel joins the other on the right or below. */
  lemma FirstOfUnited(r: Rect, a: Rect, b: Rect)
    requires a.w > 0 && a.h > 0 && b.w > 0 && b.h > 0 && Unites(r, a, b) && Covers(a, r.x, r.y)
    ensures JoinsRight(a, b) || JoinsBelow(a, b)
  {
    assert Covers(r, r.x, r.y) && Covers(a, a.x, a.y) && Covers(r, a.x, a.y);
    assert Covers(a, a.x + a.w - 1, a.y + a.h - 1) && Covers(r, a.x + a.w - 1, a.y + a.h - 1);
    assert Covers(b, b.x, b.y) && Covers(r, b.x, b.y);
    assert Covers(b, b.x + b.w - 1, b.y + b.h - 1) && Covers(r, b.x + b.w - 1, b.y + b.h - 1);
    if a.w < r.w {
      assert Covers(r, a.x + a.w, a.y) && !Covers(a, a.x + a.w, a.y) && Covers(b, a.x + a.w, a.y);
    }
    if a.h < r.h {
      assert Covers(r, a.x, a.y + a.h) && !Covers(a, a.x, a.y + a.h) && Covers(b, a.x, a.y + a.h);
    }
    assert !Covers(b, a.x, a.y);
    var lastX, lastY := r.x + r.w - 1, r.y + r.h - 1;
    assert Covers(r, lastX, lastY);
    if a.w < r.w {
      assert Covers(r, a.x + a.w, lastY) && !Covers(a, a.x + a.w, lastY) && Covers(b, a.x + a.w, lastY);
      assert !Covers(b, a.x + a.w - 1, a.y);
    } else {
      assert Covers(r, lastX, a.y + a.h) && !Covers(a, lastX, a.y + a.h) && Covers(b, lastX, a.y + a.h);
      assert !Covers(b, a.x, a.y + a.h - 1);
    }
  }

  /** Rectangle `keep` grown to `r`, rectangle `gone` removed. */
  function MergeAt(rs: seq<Rect>, keep: nat, gone: nat, r: Rect): seq<Rect>
    requires keep < |rs| && gone < |rs| && keep != gone
  {
    var grown := rs[keep := r];
    grown[..gone] + grown[gone + 1..]
  }

  lemma MergeAtCount(rs: seq<Rect>, keep: nat, gone: nat, r: Rect, px: int, py: int)
    requires keep < |rs| && gone < |rs| && keep != gone
    requires One(Covers(r, px, py)) == One(Covers(rs[keep], px, py)) + One(Covers(rs[gone], px, py))
    ensures Count(MergeAt(rs, keep, gone, r), px, py) == Count(rs, px, py)
  {
    var grown := rs[keep := r];
    CountAt(rs, keep, px, py);
    CountAt(grown, keep, px, py);
    assert grown[..keep] == rs[..keep] && grown[keep + 1..] == rs[keep + 1..];
    CountAt(grown, gone, px, py);
    CountConcat(grown[..gone], grown[gone + 1..], px, py);
    assert grown[gone] == rs[gone];
  }

  /** The rectangles of `b` cover every pixel as often as those of `a`. */
  ghost predicate SameCover(a: seq<Rect>, b: seq<Rect>) {
    forall px, py {:trigger Count(b, px, py)} :: Count(b, px, py) == Count(a, px, py)
  }

  lemma MergeAtSameCover(rs: seq<Rect>, keep: nat, gone: nat, r: Rect)
    requires keep < |rs| && gone < |rs| && keep != gone && NonNegative(rs)
    requires || (JoinsRight(rs[keep], rs[gone]) && r == rs[keep].(w := rs[keep].w + rs[gone].w))
             || (JoinsRight(rs[gone], rs[keep])
                && r == Rect(rs[gone].x, rs[keep].y, rs[gone].w + rs[keep].w, rs[keep].h))
             || (JoinsBelow(rs[keep], rs[gone]) && r == rs[keep].(h := rs[keep].h + rs[gone].h))
             || (JoinsBelow(rs[gone], rs[keep])
                && r == Rect(rs[keep].x, rs[gone].y, rs[keep].w, rs[gone].h + rs[keep].h))
    ensures SameCover(rs, MergeAt(rs, keep, gone, r)) && NonNegative(MergeAt(rs, keep, gone, r))
  {
    forall px, py ensures Count(MergeAt(rs, keep, gone, r), px, py) == Count(rs, px, py) {
      MergeAtCount(rs, keep, gone, r, px, py);
    }
  }

  class RectArray {
    const rects: array<Rect>
    var count: nat

    ghost predicate Valid()
      reads this
    {
      rects.Length == MAX_VISIBLE_RECTS && count <= MAX_VISIBLE_RECTS
    }

    function Contents(): seq<Rect>
      reads this, rects
      requires count <= rects.Length
    {
      rects[..count]
    }

    constructor ()
      ensures Valid() && count == 0 && fresh(rects)
    {
      rects := new Rect[MAX_VISIBLE_RECTS](_ => Rect(0, 0, 0, 0));
      count := 0;
    }

    /** Appends while there is room. */
    method Push(r: Rect) returns (stored: bool)
      requires Valid()
      modifies this, rects
      ensures Valid()
      ensures stored == (|old(Contents())| < MAX_VISIBLE_RECTS)
      ensures Contents() == if stored then old(Contents()) + [r] else old(Contents())
    {
      stored := count < MAX_VISIBLE_RECTS;
      if stored {
        rects[count] := r;
        count := count + 1;
      }
    }

    /** Structure assignment. */
    method Assign(other: RectArray)
      requires Valid() && other.Valid()
      modifies this, rects
      ensures Valid() && Contents() == old(other.Contents())
    {
      forall i | 0 <= i < MAX_VISIBLE_RECTS {
        rects[i] := other.rects[i];
      }
      count := other.count;
    }

    /** The memmove that closes the gap at `gone`. */
    method RemoveAt(gone: nat)
      requires Valid() && gone < count
      modifies this, rects
      ensures Valid() && count == old(count) - 1
      ensures Contents() == old(Contents())[..gone] + old(Contents())[gone + 1..]
    {
      forall i | gone <= i < count - 1 {
        rects[i] := rects[i + 1];
      }
      count := count - 1;
    }

    /** The first pass of merge_rectangles: joins the first pair side by side. */
    method MergeHorizontal() returns (merged: bool)
      requires Valid() && NonNegative(Contents())
      modifies this, rects
      ensures Valid() && NonNegative(Contents())
      ensures merged ==> count == old(count) - 1 && SameCover(old(Contents()), Contents())
      ensures !merged ==> Contents() == old(Contents())
      ensures !merged ==> forall i, j | 0 <= i < j < count ::
                            !JoinsRight(rects[i], rects[j]) && !JoinsRight(rects[j], rects[i])
    {
      merged := false;
      ghost var rs := Contents();
      var i := 0;
      while i < count && !merged
        invariant !merged && 0 <= i <= count && Valid() && Contents() == rs
        invariant forall k, j | 0 <= k < i && k < j < count ::
                    !JoinsRight(rects[k], rects[j]) && !JoinsRight(rects[j], rects[k])
        decreases count - i
      {
        var j := i + 1;
        while j < count
          invariant i < j <= count && Valid() && Contents() == rs
          invariant forall k | i < k < j :: !JoinsRight(rects[i], rects[k]) && !JoinsRight(rects[k], rects[i])
          decreases count - j
        {
          var a, b := rects[i], rects[j];
          if a.y == b.y && a.h == b.h {
            if a.x + a.w == b.x {
              MergeAtSameCover(rs, i, j, a.(w := a.w + b.w));
              rects[i] := a.(w := a.w + b.w);
              RemoveAt(j);
              return true;
            } else if b.x + b.w == a.x {
              MergeAtSameCover(rs, j, i, b.(w := b.w + a.w));
              rects[j] := b.(w := b.w + a.w);
              RemoveAt(i);
              return true;
            }
          }
          j := j + 1;
        }
        i := i + 1;
      }
    }

    /** The second pass: joins the first pair one above the other. */
    method MergeVertical() returns (merged: bool)
      requires Valid() && NonNegative(Contents())
      modifies this, rects
      ensures Valid() && NonNegative(Contents())
      ensures merged ==> count == old(count) - 1 && SameCover(old(Contents()), Contents())
      ensures !merged ==> Contents() == old(Contents())
      ensures !merged ==> forall i, j | 0 <= i < j < count ::
                            !JoinsBelow(rects[i], rects[j]) && !JoinsBelow(rects[j], rects[i])
    {
      merged := false;
      ghost var rs := Contents();
      var i := 0;
      while i < count && !merged
        invariant !merged && 0 <= i <= count && Valid() && Contents() == rs
        invariant forall k, j | 0 <= k < i && k < j < count ::
                    !JoinsBelow(rects[k], rects[j]) && !JoinsBelow(rects[j], rects[k])
        decreases count - i
      {
        var j := i + 1;
        while j < count
          invariant i < j <= count && Valid() && Contents() == rs
          invariant forall k | i < k < j :: !JoinsBelow(rects[i], rects[k]) && !JoinsBelow(rects[k], rects[i])
          decreases count - j
        {
          var a, b := rects[i], rects[j];
          if a.x == b.x && a.w == b.w {
            if a.y + a.h == b.y {
              MergeAtSameCover(rs, i, j, a.(h := a.h + b.h));
              rects[i] := a.(h := a.h + b.h);
              RemoveAt(j);
              return true;
            } else if b.y + b.h == a.y {
              MergeAtSameCover(rs, j, i, b.(h := b.h + a.h));
              rects[j] := b.(h := b.h + a.h);
              RemoveAt(i);
              return true;
            }
          }
          j := j + 1;
        }
        i := i + 1;
      }
    }

    /** merge_rectangles: repeats both passes until neither joins anything. */
    method MergeRectangles()
      requires Valid() && NonNegative(Contents())
      modifies this, rects
      ensures Valid() && NonNegative(Contents())
      ensures count <= old(count)
      ensures SameCover(old(Contents()), Contents())
      ensures forall i, j | 0 <= i < j < count :: !Mergeable(rects[i], rects[j])
    {
      var mergedAny := true;
      while mergedAny
        invariant Valid() && NonNegative(Contents()) && count <= old(count)
        invariant SameCover(old(Contents()), Contents())
        invariant !mergedAny ==> forall i, j | 0 <= i < j < count :: !Mergeable(rects[i], rects[j])
        decreases count, mergedAny
      {
        mergedAny := MergeHorizontal();
        if !mergedAny {
          mergedAny := MergeVertical();
        }
      }
    }
  }
}
