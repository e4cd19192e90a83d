// When a pool that has just served a request can serve another one of the same size:
// exactly when there were two places for it, whichever of them was taken.
module TwoRanges {
  import opened Dyadic
  import opened Tiling
  import opened Buddy
  import opened BuddyPool

  /** Two free regions for a request of `n` pages, or one that has room for a second block. */
  ghost predicate TwoPlaces(p: Pool, before: Tile, n: nat) {
    || (exists i: nat, a: nat, j: nat, b: nat :: i != j && p.Candidate(before, i, a, n) && p.Candidate(before, j, b, n))
    || (exists i: nat, a: nat ::
          p.Candidate(before, i, a, n) && OrderFor(n) < a && i + Pow2(OrderFor(n)) + n <= p.WasteStart())
  }

  lemma {:induction false} ParentHolds(i: nat, k: nat)
    requires Aligned(i, k)
    ensures Aligned(Parent(i, k), k + 1) && Parent(i, k) <= i && i + Pow2(k) <= Parent(i, k) + Pow2(k + 1)
  {
    AlignedHalves(i, k);
    if !Aligned(i, k + 1) {
      var b := FlipBit(i, k);
      AlignedHalves(b, k);
      FlipBitInvolutive(i, k);
    }
  }

  /** A clear region that has a page of a maximal one lies inside it. */
  lemma {:induction false} InsideMaximal(m: nat, live: Tile, i: nat, a: nat, j: nat, b: nat)
    requires MaximalFree(m, live, i, a) && Aligned(j, b) && b <= m && ClearOf(live, j, b)
    requires j < i + Pow2(a) && i < j + Pow2(b)
    ensures b <= a && i <= j && j + Pow2(b) <= i + Pow2(a)
  {
    if b <= a {
      NestedOrDisjoint(j, b, i, a);
    } else {
      NotMaximal(m, live, i, a, j, b);
    }
  }

  /** What lies inside a larger clear region is not maximal. */
  lemma {:induction false} NotMaximal(m: nat, live: Tile, i: nat, a: nat, j: nat, b: nat)
    requires Aligned(i, a) && Aligned(j, b) && a < b <= m && ClearOf(live, j, b)
    requires j < i + Pow2(a) && i < j + Pow2(b)
    ensures !MaximalFree(m, live, i, a)
  {
    ParentHolds(i, a);
    NestedOrDisjoint(Parent(i, a), a + 1, j, b);
    assert ClearOf(live, Parent(i, a), a + 1);
  }

  /** Different maximal regions have no page in common. */
  lemma {:induction false} MaximalApart(m: nat, live: Tile, i: nat, a: nat, j: nat, b: nat)
    requires MaximalFree(m, live, i, a) && MaximalFree(m, live, j, b) && i != j
    ensures i + Pow2(a) <= j || j + Pow2(b) <= i
  {
    if j < i + Pow2(a) && i < j + Pow2(b) {
      InsideMaximal(m, live, i, a, j, b);
      InsideMaximal(m, live, j, b, i, a);
    }
  }

  /** A region that is not cut into stays maximal. */
  lemma {:induction false} StaysMaximal(m: nat, live: Tile, i: nat, a: nat, b: nat, k: nat)
    requires MaximalFree(m, live, i, a) && b !in live && (i + Pow2(a) <= b || b + Pow2(k) <= i)
    ensures MaximalFree(m, live[b := k], i, a)
  {
    if a < m {
      var j: nat :| j in live && !(j + Pow2(live[j]) <= Parent(i, a) || Parent(i, a) + Pow2(a + 1) <= j);
      assert j in live[b := k] && live[b := k][j] == live[j];
    }
  }

  lemma {:induction false} ParentOfHalf(b: nat, k: nat)
    requires Aligned(b, k + 1)
    ensures Aligned(b + Pow2(k), k) && Parent(b + Pow2(k), k) == b
  {
    SplitAligned(b, k);
    AlignedHalves(b + Pow2(k), k);
  }

  /** The other half of the first split is maximal once the block is live. */
  lemma {:induction false} HalfIsMaximal(m: nat, live: Tile, b: nat, a: nat, k: nat)
    requires MaximalFree(m, live, b, a) && k < a && b !in live
    ensures MaximalFree(m, live[b := k], b + Pow2(k), k)
  {
    AlignedBelow(b, k + 1, a);
    Pow2Monotone(k + 1, a);
    ParentOfHalf(b, k);
    HalfIsClear(live, b, a, k);
    assert b in live[b := k] && live[b := k][b] == k;
  }

  lemma {:induction false} HalfIsClear(live: Tile, b: nat, a: nat, k: nat)
    requires ClearOf(live, b, a) && b !in live && Pow2(k + 1) <= Pow2(a)
    ensures ClearOf(live[b := k], b + Pow2(k), k)
  {
    var live' := live[b := k];
    forall j: nat | j in live' ensures j + Pow2(live'[j]) <= b + Pow2(k) || b + Pow2(k) + Pow2(k) <= j {
      assert j != b ==> j in live && live'[j] == live[j];
    }
  }

  /** After one of two places has been taken there is a place. */
  lemma {:induction false} OneIsLeft(p: Pool, before: Tile, n: nat, b: nat)
    requires 0 < n && p.BestFit(before, b, n) && b !in before && TwoPlaces(p, before, n)
    ensures p.HasCandidate(before[b := OrderFor(n)], n)
  {
    var k := OrderFor(n);
    var after := before[b := k];
    var a :| p.Candidate(before, b, a, n);
    Pow2Monotone(k, a);
    if i: nat, c: nat :| p.Candidate(before, i, c, n) && i != b {
      MaximalApart(p.maxOrder, before, b, a, i, c);
      StaysMaximal(p.maxOrder, before, i, c, b, k);
      assert p.Candidate(after, i, c, n);
    } else {
      var i: nat, c: nat :| p.Candidate(before, i, c, n) && k < c && i + Pow2(k) + n <= p.WasteStart();
      HalfIsMaximal(p.maxOrder, before, b, c, k);
      assert p.Candidate(after, b + Pow2(k), k, n);
    }
  }

  /** If there is a place after one has been taken, there were two. */
  lemma {:induction false} TwoWereThere(p: Pool, before: Tile, n: nat, b: nat)
    requires 0 < n && p.BestFit(before, b, n) && b !in before && AlwaysBacked(p.total, p.WasteStart(), n)
    requires p.HasCandidate(before[b := OrderFor(n)], n)
    ensures TwoPlaces(p, before, n)
  {
    var a :| p.Candidate(before, b, a, n);
    var j: nat, c: nat :| p.Candidate(before[b := OrderFor(n)], j, c, n);
    PlaceWasThere(p, before, n, b, a, j, c);
  }

  lemma {:induction false} PlaceWasThere(p: Pool, before: Tile, n: nat, b: nat, a: nat, j: nat, c: nat)
    requires 0 < n && b !in before && AlwaysBacked(p.total, p.WasteStart(), n)
    requires p.Candidate(before, b, a, n) && p.Candidate(before[b := OrderFor(n)], j, c, n)
    ensures TwoPlaces(p, before, n)
  {
    var k, m := OrderFor(n), p.maxOrder;
    StillClear(before, b, k, j, c);
    AlignedBelow(j, k, c);
    if c < m && ClearOf(before, Parent(j, c), c + 1) {
      PlaceInside(m, before, b, k, a, j, c);
    } else {
      assert p.Candidate(before, j, c, n);
    }
  }

  /** A place that is maximal only since the block was cut lies in the region it was cut from. */
  lemma {:induction false} PlaceInside(m: nat, live: Tile, b: nat, k: nat, a: nat, j: nat, c: nat)
    requires MaximalFree(m, live, b, a) && k <= a && k <= c < m && b !in live
    requires MaximalFree(m, live[b := k], j, c) && ClearOf(live, Parent(j, c), c + 1)
    ensures c < a && b + Pow2(k) <= j
  {
    StillClear(live, b, k, j, c);
    ParentHolds(j, c);
    CutInto(live, b, k, Parent(j, c), c + 1);
    Pow2Monotone(k, a);
    InsideMaximal(m, live, b, a, Parent(j, c), c + 1);
  }

  lemma {:induction false} StillClear(live: Tile, b: nat, k: nat, j: nat, c: nat)
    requires b !in live && ClearOf(live[b := k], j, c)
    ensures ClearOf(live, j, c) && (b + Pow2(k) <= j || j + Pow2(c) <= b)
  {
    assert live[b := k][b] == k;
    forall x | x in live ensures x + Pow2(live[x]) <= j || j + Pow2(c) <= x {
      assert x in live[b := k] && live[b := k][x] == live[x];
    }
  }

  /** What is clear but for the new block has a page of it. */
  lemma {:induction false} CutInto(live: Tile, b: nat, k: nat, j: nat, c: nat)
    requires b !in live && ClearOf(live, j, c) && !ClearOf(live[b := k], j, c)
    ensures j < b + Pow2(k) && b < j + Pow2(c)
  {
  }

  /** A second request is served exactly when there were two places for the first. */
  lemma {:induction false} SecondPlace(p: Pool, before: Tile, n: nat, b: nat)
    requires 0 < n && p.BestFit(before, b, n) && b !in before && AlwaysBacked(p.total, p.WasteStart(), n)
    ensures p.HasCandidate(before[b := OrderFor(n)], n) <==> TwoPlaces(p, before, n)
  {
    if TwoPlaces(p, before, n) {
      OneIsLeft(p, before, n, b);
    }
    if p.HasCandidate(before[b := OrderFor(n)], n) {
      TwoWereThere(p, before, n, b);
    }
  }
}
