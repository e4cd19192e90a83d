// Rectangle arithmetic of the compositor, over the pixels a rectangle covers.
module Rects {

  datatype Rect = Rect(x: int, y: int, w: int, h: int)

  predicate Covers(r: Rect, px: int, py: int) {
    r.x <= px < r.x + r.w && r.y <= py < r.y + r.h
  }

  predicate Intersects(a: Rect, b: Rect) {
    a.x < b.x + b.w && a.x + a.w > b.x && a.y < b.y + b.h && a.y + a.h > b.y
  }

  function Max(a: int, b: int): int { if a > b then a else b }

  function Min(a: int, b: int): int { if a < b then a else b }

  function Intersection(a: Rect, b: Rect): Rect {
    var left, top := Max(a.x, b.x), Max(a.y, b.y);
    var right, bottom := Min(a.x + a.w, b.x + b.w), Min(a.y + a.h, b.y + b.h);
    Rect(left, top, if right > left then right - left else 0, if bottom > top then bottom - top else 0)
  }

  lemma IntersectionIsCommonPixels(a: Rect, b: Rect, px: int, py: int)
    ensures Covers(Intersection(a, b), px, py) <==> Covers(a, px, py) && Covers(b, px, py)
  {
  }

  lemma IntersectsWhenCommonPixel(a: Rect, b: Rect)
    requires a.w > 0 && a.h > 0 && b.w > 0 && b.h > 0
    ensures Intersects(a, b) <==> exists px, py :: Covers(a, px, py) && Covers(b, px, py)
  {
    if Intersects(a, b) {
      assert Covers(a, Max(a.x, b.x), Max(a.y, b.y)) && Covers(b, Max(a.x, b.x), Max(a.y, b.y));
    }
  }

  // The pieces of `a` around an overlap `o`.
  function LeftOf(a: Rect, o: Rect): Rect { Rect(a.x, a.y, o.x - a.x, a.h) }
  function RightOf(a: Rect, o: Rect): Rect { Rect(o.x + o.w, a.y, (a.x + a.w) - (o.x + o.w), a.h) }
  function Above(a: Rect, o: Rect): Rect { Rect(o.x, a.y, o.w, o.y - a.y) }
  function Below(a: Rect, o: Rect): Rect { Rect(o.x, o.y + o.h, o.w, (a.y + a.h) - (o.y + o.h)) }

  function When(c: bool, r: Rect): seq<Rect> { if c then [r] else [] }

  /** `a` minus `b`. */
  function Subtract(a: Rect, b: Rect): (pieces: seq<Rect>)
    ensures |pieces| <= 4
  {
    if !Intersects(a, b) then [a]
    else
      var o := Intersection(a, b);
      if o == a then []
      else
        When(o.x > a.x, LeftOf(a, o))
        + When(o.x + o.w < a.x + a.w, RightOf(a, o))
        + When(o.y > a.y, Above(a, o))
        + When(o.y + o.h < a.y + a.h, Below(a, o))
  }

  function One(b: bool): nat { if b then 1 else 0 }

  /** How many of the rectangles cover a pixel. */
  function Count(rs: seq<Rect>, px: int, py: int): nat {
    if rs == [] then 0 else One(Covers(rs[0], px, py)) + Count(rs[1..], px, py)
  }

  lemma {:induction false} CountConcat(rs: seq<Rect>, ts: seq<Rect>, px: int, py: int)
    ensures Count(rs + ts, px, py) == Count(rs, px, py) + Count(ts, px, py)
  {
    if rs == [] {
      assert rs + ts == ts;
    } else {
      assert (rs + ts)[1..] == rs[1..] + ts;
      CountConcat(rs[1..], ts, px, py);
    }
  }

  lemma CountOne(r: Rect, px: int, py: int)
    ensures Count([r], px, py) == One(Covers(r, px, py))
  {
    assert [r][1..] == [];
  }

  lemma {:induction false} CountAt(rs: seq<Rect>, i: nat, px: int, py: int)
    requires i < |rs|
    ensures Count(rs, px, py) == Count(rs[..i], px, py) + One(Covers(rs[i], px, py)) + Count(rs[i + 1..], px, py)
  {
    assert rs == rs[..i] + ([rs[i]] + rs[i + 1..]);
    CountConcat(rs[..i], [rs[i]] + rs[i + 1..], px, py);
    CountConcat([rs[i]], rs[i + 1..], px, py);
    CountOne(rs[i], px, py);
  }

  lemma CountPositive(rs: seq<Rect>, px: int, py: int)
    ensures Count(rs, px, py) > 0 <==> exists i | 0 <= i < |rs| :: Covers(rs[i], px, py)
  {
    if rs != [] {
      CountPositive(rs[1..], px, py);
      if i :| 0 <= i < |rs| && Covers(rs[i], px, py) {
        if i > 0 { assert rs[1..][i - 1] == rs[i]; }
      }
      if Count(rs, px, py) > 0 && !Covers(rs[0], px, py) {
        var i :| 0 <= i < |rs[1..]| && Covers(rs[1..][i], px, py);
        assert Covers(rs[i + 1], px, py);
      }
    }
  }

  lemma CountWhen(c: bool, r: Rect, px: int, py: int)
    ensures Count(When(c, r), px, py) == One(c && Covers(r, px, py))
  {
    CountOne(r, px, py);
  }

  /** Around the overlap with `b`, exactly one piece covers each pixel of `a` outside `b`. */
  lemma PiecesAreExact(a: Rect, b: Rect, px: int, py: int)
    requires Intersects(a, b) && Intersection(a, b) != a
    ensures var o := Intersection(a, b);
            One(o.x > a.x && Covers(LeftOf(a, o), px, py))
            + One(o.x + o.w < a.x + a.w && Covers(RightOf(a, o), px, py))
            + One(o.y > a.y && Covers(Above(a, o), px, py))
            + One(o.y + o.h < a.y + a.h && Covers(Below(a, o), px, py))
            == One(Covers(a, px, py) && !Covers(b, px, py))
  {
  }

  lemma CountFour(l: seq<Rect>, r: seq<Rect>, t: seq<Rect>, u: seq<Rect>, px: int, py: int)
    ensures Count(l + r + t + u, px, py) ==
            Count(l, px, py) + Count(r, px, py) + Count(t, px, py) + Count(u, px, py)
  {
    CountConcat(l + r + t, u, px, py);
    CountConcat(l + r, t, px, py);
    CountConcat(l, r, px, py);
  }

  /** The pieces tile exactly the pixels of `a` outside `b`, for rectangles of any size. */
  lemma SubtractIsExact(a: Rect, b: Rect, px: int, py: int)
    ensures Count(Subtract(a, b), px, py) == One(Covers(a, px, py) && !Covers(b, px, py))
  {
    var o := Intersection(a, b);
    if !Intersects(a, b) {
      CountOne(a, px, py);
    } else if o == a {
      IntersectionIsCommonPixels(a, b, px, py);
    } else {
      PiecesAreExact(a, b, px, py);
      SubtractCount(a, b, px, py);
    }
  }

  lemma SubtractCount(a: Rect, b: Rect, px: int, py: int)
    requires Intersects(a, b) && Intersection(a, b) != a
    ensures var o := Intersection(a, b);
            Count(Subtract(a, b), px, py) ==
            One(o.x > a.x && Covers(LeftOf(a, o), px, py))
            + One(o.x + o.w < a.x + a.w && Covers(RightOf(a, o), px, py))
            + One(o.y > a.y && Covers(Above(a, o), px, py))
            + One(o.y + o.h < a.y + a.h && Covers(Below(a, o), px, py))
  {
    var o := Intersection(a, b);
    var c1, c2, c3, c4 := o.x > a.x, o.x + o.w < a.x + a.w, o.y > a.y, o.y + o.h < a.y + a.h;
    CountFour(When(c1, LeftOf(a, o)), When(c2, RightOf(a, o)), When(c3, Above(a, o)), When(c4, Below(a, o)), px, py);
    CountWhen(c1, LeftOf(a, o), px, py);
    CountWhen(c2, RightOf(a, o), px, py);
    CountWhen(c3, Above(a, o), px, py);
    CountWhen(c4, Below(a, o), px, py);
  }

  predicate NonNegative(rs: seq<Rect>) {
    forall i | 0 <= i < |rs| :: rs[i].w >= 0 && rs[i].h >= 0
  }

  lemma SubtractNonNegative(a: Rect, b: Rect)
    requires a.w >= 0 && a.h >= 0
    ensures NonNegative(Subtract(a, b))
  {
  }
}
