/** A tight delta is unique, so "fails when the delta has too many segments" names one thing. */
module VideoTight {
  import opened Arith
  import opened Bytes
  import opened Video

  ghost predicate Covers(s: Seg, y: nat, x: nat) {
    s.y == y && s.x <= x < s.x + |s.pixels|
  }

  lemma CoverIndex(gs: seq<Seg>, y: nat, x: nat) returns (i: nat)
    requires CoveredBy(gs, y, x)
    ensures i < |gs| && Covers(gs[i], y, x)
  {
    i :| 0 <= i < |gs| && gs[i].y == y && gs[i].x <= x < gs[i].x + |gs[i].pixels|;
  }

  /** Nothing covers the four pixels after a segment. */
  lemma GapAfter(gs: seq<Seg>, m: nat, x: nat, prev: Option<seq<byte>>, cur: seq<byte>, w: nat)
    requires prev.Some? ==> |prev.value| == |cur|
    requires IsTight(gs, prev, cur, w) && m < |gs|
    requires gs[m].x + |gs[m].pixels| <= x < gs[m].x + |gs[m].pixels| + 4
    ensures !CoveredBy(gs, gs[m].y, x)
  {
    hide Trim;
    forall i | 0 <= i < |gs|
      ensures !Covers(gs[i], gs[m].y, x)
    {
      assert i < m ==> Apart(gs[i], gs[m]);
      assert m < i ==> Apart(gs[m], gs[i]);
    }
    if CoveredBy(gs, gs[m].y, x) {
      var i := CoverIndex(gs, gs[m].y, x);
      assert false;
    }
  }

  /** Where two lists agree so far, the next segment of the second exists and starts no later. */
  lemma StartsNoLater(gs: seq<Seg>, hs: seq<Seg>, prev: Option<seq<byte>>, cur: seq<byte>, w: nat, h: nat, n: nat)
    requires |cur| == w * h && (prev.Some? ==> |prev.value| == |cur|)
    requires IsTight(gs, prev, cur, w)
    requires IsDelta(gs, prev, cur, w, h) && IsDelta(hs, prev, cur, w, h) && IsTight(hs, prev, cur, w)
    requires n < |gs| && n <= |hs| && gs[..n] == hs[..n]
    ensures n < |hs| && (hs[n].y < gs[n].y || (hs[n].y == gs[n].y && hs[n].x <= gs[n].x))
  {
    hide CoveredBy, Place, Quiet;
    var g := gs[n];
    assert Trim(g, prev, cur, w) && Carries(g, cur, w);
    FirstInside(g, cur, w);
    var j := CoverIndex(hs, g.y, g.x);
    forall i | 0 <= i < n
      ensures !Covers(hs[i], g.y, g.x)
    {
      assert hs[i] == hs[..n][i] == gs[..n][i] == gs[i];
      assert Apart(gs[i], gs[n]);
    }
    assert n < j ==> Apart(hs[n], hs[j]);
  }

  lemma FirstInside(g: Seg, cur: seq<byte>, w: nat)
    requires Carries(g, cur, w)
    ensures g.x < w && Place(g.y, g.x, w) < |cur|
    ensures g.x + |g.pixels| - 1 < w
    ensures Place(g.y, g.x, w) + |g.pixels| - 1 == Place(g.y, g.x + |g.pixels| - 1, w) < |cur|
  {}

  lemma PlacePlus(y: nat, x: nat, k: nat, w: nat)
    ensures Place(y, x + k, w) == Place(y, x, w) + k
  {}

  /** Two segments that start together: the second is no longer than the first. */
  lemma NoLonger(gs: seq<Seg>, hs: seq<Seg>, prev: Option<seq<byte>>, cur: seq<byte>, w: nat, h: nat, n: nat)
    requires |cur| == w * h && (prev.Some? ==> |prev.value| == |cur|)
    requires IsDelta(gs, prev, cur, w, h) && IsTight(gs, prev, cur, w)
    requires n < |gs| && n < |hs| && Trim(hs[n], prev, cur, w)
    requires gs[n].y == hs[n].y < h && gs[n].x == hs[n].x
    ensures |hs[n].pixels| <= |gs[n].pixels|
  {
    hide CoveredBy, Place, Trim, Carries;
    var g, k := gs[n], hs[n];
    if |g.pixels| < |k.pixels| {
      LastOf(k, prev, cur, w);
      var last := k.x + |k.pixels| - 1;
      assert CoveredBy(gs, k.y, last);
      if last < g.x + |g.pixels| + 4 {
        GapAfter(gs, n, last, prev, cur, w);
        assert false;
      }
      var from := |g.pixels|;
      Unchanged(gs, n, 0, prev, cur, w, h);
      Unchanged(gs, n, 1, prev, cur, w, h);
      Unchanged(gs, n, 2, prev, cur, w, h);
      Unchanged(gs, n, 3, prev, cur, w, h);
      Stretch(k, from, prev, cur, w);
    }
  }

  lemma LastOf(k: Seg, prev: Option<seq<byte>>, cur: seq<byte>, w: nat)
    requires prev.Some? ==> |prev.value| == |cur|
    requires Trim(k, prev, cur, w)
    ensures Carries(k, cur, w) && |k.pixels| > 0 && k.x + |k.pixels| <= w
    ensures Place(k.y, k.x + |k.pixels| - 1, w) < |cur| && !Same(prev, cur, Place(k.y, k.x + |k.pixels| - 1, w))
  {
    FirstInside(k, cur, w);
    hide Quiet;
  }

  /** Four unchanged pixels inside a segment cannot be. */
  lemma Stretch(k: Seg, from: nat, prev: Option<seq<byte>>, cur: seq<byte>, w: nat)
    requires prev.Some? ==> |prev.value| == |cur|
    requires Carries(k, cur, w) && from + 4 <= |k.pixels|
    requires StillSame(k.y, k.x + from, prev, cur, w) && StillSame(k.y, k.x + from + 1, prev, cur, w)
    requires StillSame(k.y, k.x + from + 2, prev, cur, w) && StillSame(k.y, k.x + from + 3, prev, cur, w)
    ensures !Trim(k, prev, cur, w)
  {
    PlacePlus(k.y, k.x, from, w);
    PlacePlus(k.y, k.x, from + 1, w);
    PlacePlus(k.y, k.x, from + 2, w);
    PlacePlus(k.y, k.x, from + 3, w);
    hide Place;
    assert Quiet(prev, cur, Place(k.y, k.x, w), from);
  }

  ghost predicate StillSame(y: nat, x: nat, prev: Option<seq<byte>>, cur: seq<byte>, w: nat)
    requires prev.Some? ==> |prev.value| == |cur|
  {
    Place(y, x, w) < |cur| && Same(prev, cur, Place(y, x, w))
  }

  lemma Unchanged(gs: seq<Seg>, n: nat, i: nat, prev: Option<seq<byte>>, cur: seq<byte>, w: nat, h: nat)
    requires |cur| == w * h && (prev.Some? ==> |prev.value| == |cur|)
    requires IsDelta(gs, prev, cur, w, h) && IsTight(gs, prev, cur, w)
    requires n < |gs| && gs[n].y < h && i < 4 && gs[n].x + |gs[n].pixels| + i < w
    ensures StillSame(gs[n].y, gs[n].x + |gs[n].pixels| + i, prev, cur, w)
  {
    var x := gs[n].x + |gs[n].pixels| + i;
    LessRow(gs[n].y, h, w);
    GapAfter(gs, n, x, prev, cur, w);
    hide CoveredBy, Trim, Carries;
  }

  /** Two tight deltas of one change are one and the same list of segments. */
  lemma {:induction false} TightAgree(gs: seq<Seg>, hs: seq<Seg>, prev: Option<seq<byte>>, cur: seq<byte>, w: nat,
                                      h: nat, n: nat)
    requires |cur| == w * h && (prev.Some? ==> |prev.value| == |cur|)
    requires IsDelta(gs, prev, cur, w, h) && IsTight(gs, prev, cur, w)
    requires IsDelta(hs, prev, cur, w, h) && IsTight(hs, prev, cur, w)
    requires n <= |gs|
    ensures n <= |hs| && gs[..n] == hs[..n]
  {
    hide CoveredBy, Place, Carries, Quiet;
    if n > 0 {
      var m := n - 1;
      TightAgree(gs, hs, prev, cur, w, h, m);
      StartsNoLater(gs, hs, prev, cur, w, h, m);
      StartsNoLater(hs, gs, prev, cur, w, h, m);
      NoLonger(gs, hs, prev, cur, w, h, m);
      NoLonger(hs, gs, prev, cur, w, h, m);
      SameCarried(gs[m], hs[m], cur, w);
      assert gs[..n] == gs[..m] + [gs[m]] && hs[..n] == hs[..m] + [hs[m]];
    }
  }

  lemma SameCarried(g: Seg, k: Seg, cur: seq<byte>, w: nat)
    requires Carries(g, cur, w) && Carries(k, cur, w)
    requires g.y == k.y && g.x == k.x && |g.pixels| == |k.pixels|
    ensures g == k
  {}

  lemma TightUnique(gs: seq<Seg>, hs: seq<Seg>, prev: Option<seq<byte>>, cur: seq<byte>, w: nat, h: nat)
    requires |cur| == w * h && (prev.Some? ==> |prev.value| == |cur|)
    requires IsDelta(gs, prev, cur, w, h) && IsTight(gs, prev, cur, w)
    requires IsDelta(hs, prev, cur, w, h) && IsTight(hs, prev, cur, w)
    ensures gs == hs
  {
    TightAgree(gs, hs, prev, cur, w, h, |gs|);
    TightAgree(hs, gs, prev, cur, w, h, |hs|);
    assert gs[..|gs|] == gs && hs[..|hs|] == hs;
  }

  /** Two pixels of a row that changed: with three unchanged between them they are one segment, with four they
      are two. */
  lemma GapOfFour(gs: seq<Seg>, hs: seq<Seg>, a: byte, b: byte, c: byte, d: byte)
    requires a != c && b != d
    requires var prev, cur := [a, 1, 2, 3, b], [c, 1, 2, 3, d];
      IsDelta(gs, Some(prev), cur, 5, 1) && IsTight(gs, Some(prev), cur, 5)
    requires var prev, cur := [a, 1, 2, 3, 4, b], [c, 1, 2, 3, 4, d];
      IsDelta(hs, Some(prev), cur, 6, 1) && IsTight(hs, Some(prev), cur, 6)
    ensures gs == [Seg(0, 0, [c, 1, 2, 3, d])]
    ensures hs == [Seg(0, 0, [c]), Seg(0, 5, [d])]
  {
    hide IsDelta, IsTight;
    OneSegment(a, b, c, d);
    TightUnique(gs, [Seg(0, 0, [c, 1, 2, 3, d])], Some([a, 1, 2, 3, b]), [c, 1, 2, 3, d], 5, 1);
    TwoSegments(a, b, c, d);
    TightUnique(hs, [Seg(0, 0, [c]), Seg(0, 5, [d])], Some([a, 1, 2, 3, 4, b]), [c, 1, 2, 3, 4, d], 6, 1);
  }

  lemma OneSegment(a: byte, b: byte, c: byte, d: byte)
    requires a != c && b != d
    ensures var prev, cur, gs := [a, 1, 2, 3, b], [c, 1, 2, 3, d], [Seg(0, 0, [c, 1, 2, 3, d])];
      IsDelta(gs, Some(prev), cur, 5, 1) && IsTight(gs, Some(prev), cur, 5)
  {
    var prev, cur, gs := [a, 1, 2, 3, b], [c, 1, 2, 3, d], [Seg(0, 0, [c, 1, 2, 3, d])];
    assert cur[0..5] == gs[0].pixels;
    assert Carries(gs[0], cur, 5);
    forall y, x | 0 <= y < 1 && 0 <= x < 5
      ensures CoveredBy(gs, y, x)
    {
      assert gs[0].y == y && gs[0].x <= x < gs[0].x + |gs[0].pixels|;
    }
    assert Trim(gs[0], Some(prev), cur, 5);
  }

  lemma TwoSegments(a: byte, b: byte, c: byte, d: byte)
    requires a != c && b != d
    ensures var prev, cur, gs := [a, 1, 2, 3, 4, b], [c, 1, 2, 3, 4, d], [Seg(0, 0, [c]), Seg(0, 5, [d])];
      IsDelta(gs, Some(prev), cur, 6, 1) && IsTight(gs, Some(prev), cur, 6)
  {
    var prev, cur, gs := [a, 1, 2, 3, 4, b], [c, 1, 2, 3, 4, d], [Seg(0, 0, [c]), Seg(0, 5, [d])];
    assert cur[0..1] == [c] && cur[5..6] == [d];
    assert Carries(gs[0], cur, 6) && Carries(gs[1], cur, 6);
    forall y, x | 0 <= y < 1 && 0 <= x < 6 && !Same(Some(prev), cur, Place(y, x, 6))
      ensures CoveredBy(gs, y, x)
    {
      if x == 0 {
        assert gs[0].y == y && gs[0].x <= x < gs[0].x + |gs[0].pixels|;
      } else {
        assert x == 5 && gs[1].y == y && gs[1].x <= x < gs[1].x + |gs[1].pixels|;
      }
    }
    assert Trim(gs[0], Some(prev), cur, 6) && Trim(gs[1], Some(prev), cur, 6);
  }
}
