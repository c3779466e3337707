/**
 The builder's coder (tools/mkpage.py): one frame as the runs that differ from the frame before, and a
 clip as a header and one delta a frame.
 */
module VideoCoder {
  import opened Arith
  import opened Bytes
  import opened Video
  import opened VideoTight

  // ---------------------------------------------------------------- one run

  /** A run cut where it is too long for a length field. */
  function Pieces(y: nat, start: nat, run: seq<byte>): seq<Seg>
    decreases |run|
  {
    if run == [] then []
    else
      var n := Min(|run|, 65535);
      [Seg(y, start, run[..n])] + Pieces(y, start + n, run[n..])
  }

  lemma OnePiece(y: nat, start: nat, run: seq<byte>)
    requires 0 < |run| <= 65535
    ensures Pieces(y, start, run) == [Seg(y, start, run)]
  {
    assert run[..|run|] == run;
    assert Pieces(y, start + |run|, run[|run|..]) == [];
  }

  /** The columns of one row that some pixels of the frame stand in. */
  ghost predicate Stands(y: nat, start: nat, run: seq<byte>, cur: seq<byte>, w: nat) {
    && start + |run| <= w
    && Place(y, start, w) + |run| <= |cur|
    && cur[Place(y, start, w)..Place(y, start, w) + |run|] == run
  }

  lemma StandsParts(y: nat, start: nat, run: seq<byte>, cur: seq<byte>, w: nat, n: nat)
    requires Stands(y, start, run, cur, w) && n <= |run|
    ensures Stands(y, start, run[..n], cur, w) && Stands(y, start + n, run[n..], cur, w)
  {
    PlacePlus(y, start, n, w);
    hide Place;
    var from := Place(y, start, w);
    SubSlice(cur, from, from + |run|, 0, n);
    SubSlice(cur, from, from + |run|, n, |run| - n);
    assert run[n..] == run[n..|run|];
  }

  lemma {:induction false} PiecesCarry(y: nat, start: nat, run: seq<byte>, cur: seq<byte>, w: nat)
    requires Stands(y, start, run, cur, w)
    ensures forall i :: 0 <= i < |Pieces(y, start, run)| ==>
      Pieces(y, start, run)[i].y == y && Carries(Pieces(y, start, run)[i], cur, w)
    ensures forall x :: start <= x < start + |run| ==> CoveredBy(Pieces(y, start, run), y, x)
    decreases |run|
  {
    if run != [] {
      var n := Min(|run|, 65535);
      var first, later := Seg(y, start, run[..n]), Pieces(y, start + n, run[n..]);
      StandsParts(y, start, run, cur, w, n);
      StandsCarries(y, start, run[..n], cur, w);
      PiecesCarry(y, start + n, run[n..], cur, w);
      hide Stands, Carries, CoveredBy;
      var all := Pieces(y, start, run);
      forall x | start <= x < start + |run|
        ensures CoveredBy(all, y, x)
      {
        if x >= start + n {
          CoveredWider([first], later, y, x);
        } else {
          CoveredOne(first, later, x);
        }
      }
    }
  }

  lemma StandsCarries(y: nat, start: nat, run: seq<byte>, cur: seq<byte>, w: nat)
    requires Stands(y, start, run, cur, w) && run != []
    ensures Carries(Seg(y, start, run), cur, w)
  {}

  lemma CoveredWider(gs: seq<Seg>, hs: seq<Seg>, y: nat, x: nat)
    ensures CoveredBy(gs + hs, y, x) <==> CoveredBy(gs, y, x) || CoveredBy(hs, y, x)
  {
    if CoveredBy(gs, y, x) {
      var i := CoverIndex(gs, y, x);
      assert (gs + hs)[i] == gs[i];
    }
    if CoveredBy(hs, y, x) {
      var i := CoverIndex(hs, y, x);
      assert (gs + hs)[|gs| + i] == hs[i];
    }
    if CoveredBy(gs + hs, y, x) {
      var i := CoverIndex(gs + hs, y, x);
      assert i < |gs| ==> gs[i] == (gs + hs)[i];
      assert i >= |gs| ==> hs[i - |gs|] == (gs + hs)[i];
    }
  }

  lemma CoveredOne(s: Seg, later: seq<Seg>, x: nat)
    requires s.x <= x < s.x + |s.pixels|
    ensures CoveredBy([s] + later, s.y, x)
  {
    assert ([s] + later)[0] == s;
  }

  /** Packs a run behind the segments packed so far; stops at the first piece whose row or column is too
      large for its field. */
  method EmitRun(y: nat, start: nat, run: seq<byte>, segs: seq<byte>, n: nat, ghost gs: seq<Seg>)
    returns (ok: bool, segs': seq<byte>, n': nat)
    requires AllPackable(gs) && segs == PackAll(gs) && n == |gs|
    ensures ok <==> AllPackable(Pieces(y, start, run))
    ensures ok ==> AllPackable(gs + Pieces(y, start, run))
    ensures ok ==> segs' == PackAll(gs + Pieces(y, start, run)) && n' == |gs + Pieces(y, start, run)|
  {
    hide Pack, PackAll;
    segs', n' := segs, n;
    var from: nat, left := start, run;
    ghost var done := gs;
    assert gs + Pieces(y, start, run) == gs + Pieces(y, from, left);
    while left != []
      invariant AllPackable(done) && segs' == PackAll(done) && n' == |done|
      invariant done + Pieces(y, from, left) == gs + Pieces(y, start, run)
      invariant AllPackable(Pieces(y, start, run)) <==> AllPackable(Pieces(y, from, left))
      decreases |left|
    {
      var take := left[..Min(|left|, 65535)];
      ghost var s := Seg(y, from, take);
      PiecesStep(y, from, left);
      PackableStep(s, Pieces(y, from + |take|, left[|take|..]));
      if y >= 0x1_0000 || from >= 0x1_0000 {
        return false, segs', n';
      }
      PackAllSnoc(done, s);
      segs' := segs' + (Le16(y) + Le16(from) + Le16(|take|) + take);
      n' := n' + 1;
      PackIs(s);
      done := done + [s];
      from := from + |take|;
      left := left[|take|..];
      assert done + Pieces(y, from, left) == gs + Pieces(y, start, run);
    }
    assert Pieces(y, from, left) == [];
    assert done == gs + Pieces(y, start, run);
    ok := true;
  }

  lemma PiecesStep(y: nat, from: nat, left: seq<byte>)
    requires left != []
    ensures var n := Min(|left|, 65535);
      Pieces(y, from, left) == [Seg(y, from, left[..n])] + Pieces(y, from + n, left[n..])
  {}

  lemma PackableStep(s: Seg, later: seq<Seg>)
    ensures AllPackable([s] + later) <==> Packable(s) && AllPackable(later)
  {
    if AllPackable([s] + later) {
      assert ([s] + later)[0] == s;
      forall i | 0 <= i < |later|
        ensures Packable(later[i])
      {
        assert ([s] + later)[i + 1] == later[i];
      }
    }
  }

  lemma PackAllSnoc(gs: seq<Seg>, s: Seg)
    requires AllPackable(gs) && Packable(s)
    ensures AllPackable(gs + [s]) && PackAll(gs + [s]) == PackAll(gs) + Pack(s)
  {
    hide Pack;
    assert (gs + [s])[..|gs|] == gs;
  }

  lemma PackIs(s: Seg)
    requires Packable(s)
    ensures Pack(s) == Le16(s.y) + Le16(s.x) + Le16(|s.pixels|) + s.pixels
  {}

  // ---------------------------------------------------------------- one row

  function Row(frame: seq<byte>, y: nat, w: nat): (r: seq<byte>)
    requires Place(y, 0, w) + w <= |frame|
    ensures |r| == w
  {
    frame[Place(y, 0, w)..Place(y, 0, w) + w]
  }

  function RowOf(frame: Option<seq<byte>>, y: nat, w: nat): (r: Option<seq<byte>>)
    requires frame.Some? ==> Place(y, 0, w) + w <= |frame.value|
    ensures r.Some? ==> |r.value| == w
  {
    if frame.Some? then Some(Row(frame.value, y, w)) else None
  }

  ghost predicate Frames(prev: Option<seq<byte>>, cur: seq<byte>, w: nat, y: nat) {
    Place(y, 0, w) + w <= |cur| && (prev.Some? ==> |prev.value| == |cur|)
  }

  lemma RowSame(prev: Option<seq<byte>>, cur: seq<byte>, w: nat, y: nat, x: nat)
    requires Frames(prev, cur, w, y) && x < w
    ensures Place(y, x, w) < |cur| && Same(RowOf(prev, y, w), Row(cur, y, w), x) == Same(prev, cur, Place(y, x, w))
  {
    PlacePlus(y, 0, x, w);
    hide Place;
  }

  lemma RowQuiet(prev: Option<seq<byte>>, cur: seq<byte>, w: nat, y: nat, from: nat, k: nat)
    requires Frames(prev, cur, w, y) && from + k + 4 <= w
    ensures Quiet(RowOf(prev, y, w), Row(cur, y, w), from, k) == Quiet(prev, cur, Place(y, from, w), k)
  {
    RowSame(prev, cur, w, y, from + k);
    RowSame(prev, cur, w, y, from + k + 1);
    RowSame(prev, cur, w, y, from + k + 2);
    RowSame(prev, cur, w, y, from + k + 3);
    PlacePlus(y, from, k, w);
    PlacePlus(y, from, k + 1, w);
    PlacePlus(y, from, k + 2, w);
    PlacePlus(y, from, k + 3, w);
    hide Place, Same, RowOf, Row, Frames;
  }

  /** From a changed pixel on: stops after four unchanged pixels, or at the end of the row. */
  method RunEnd(a: Option<seq<byte>>, b: seq<byte>, from: nat) returns (x: nat, gap: nat)
    requires a.Some? ==> |a.value| == |b|
    requires from < |b| && !Same(a, b, from)
    ensures from + gap < x <= |b| && gap <= 4 && (gap == 4 || x == |b|)
    ensures !Same(a, b, x - gap - 1)
    ensures forall k :: x - gap <= k < x ==> Same(a, b, k)
    ensures forall k :: 0 <= k <= x - gap - from - 4 ==> !Quiet(a, b, from, k)
  {
    x, gap := from, 0;
    while x < |b| && gap < 4
      invariant from <= x <= |b| && gap <= 4 && (if x == from then gap == 0 else from + gap < x)
      invariant x > from ==> !Same(a, b, x - gap - 1)
      invariant forall k :: x - gap <= k < x ==> Same(a, b, k)
      invariant forall k :: 0 <= k <= x - from - 4 && Quiet(a, b, from, k) ==> gap == 4 && k == x - from - 4
    {
      gap := if a.Some? && a.value[x] == b[x] then gap + 1 else 0;
      x := x + 1;
    }
  }

  ghost predicate Owed(gs: seq<Seg>, prev: Option<seq<byte>>, cur: seq<byte>, w: nat, y: nat, x: nat)
    requires prev.Some? ==> |prev.value| == |cur|
  {
    Place(y, x, w) < |cur| && !Same(prev, cur, Place(y, x, w)) ==> CoveredBy(gs, y, x)
  }

  /** Every changed pixel before column `x` of row `y` is covered. */
  ghost predicate Swept(gs: seq<Seg>, prev: Option<seq<byte>>, cur: seq<byte>, w: nat, y: nat, x: nat)
    requires prev.Some? ==> |prev.value| == |cur|
  {
    forall v: nat, u: nat :: u < w && (v < y || (v == y && u < x)) ==> Owed(gs, prev, cur, w, v, u)
  }

  ghost predicate Behind(s: Seg, y: nat, x: nat, w: nat) {
    s.y < y || (s.y == y && (x == w || s.x + |s.pixels| + 4 <= x))
  }

  ghost predicate AllCarry(gs: seq<Seg>, cur: seq<byte>, w: nat, y: nat, x: nat) {
    forall i :: 0 <= i < |gs| ==> Carries(gs[i], cur, w) && (gs[i].y < y || (gs[i].y == y && x > 0))
  }

  ghost predicate TightSoFar(gs: seq<Seg>, prev: Option<seq<byte>>, cur: seq<byte>, w: nat, y: nat, x: nat)
    requires prev.Some? ==> |prev.value| == |cur|
  {
    IsTight(gs, prev, cur, w) && forall i :: 0 <= i < |gs| ==> Behind(gs[i], y, x, w)
  }

  ghost predicate SoFar(gs: seq<Seg>, prev: Option<seq<byte>>, cur: seq<byte>, w: nat, y: nat, x: nat)
    requires prev.Some? ==> |prev.value| == |cur|
  {
    && AllCarry(gs, cur, w, y, x)
    && Swept(gs, prev, cur, w, y, x)
    && (w <= 65535 ==> TightSoFar(gs, prev, cur, w, y, x))
  }

  lemma SameSkipped(gs: seq<Seg>, prev: Option<seq<byte>>, cur: seq<byte>, w: nat, y: nat, x: nat)
    requires Frames(prev, cur, w, y) && x < w && SoFar(gs, prev, cur, w, y, x)
    requires Same(RowOf(prev, y, w), Row(cur, y, w), x)
    ensures SoFar(gs, prev, cur, w, y, x + 1)
  {
    RowSame(prev, cur, w, y, x);
    hide Place, CoveredBy, Carries, IsTight, Same, RowOf, Row;
    assert Owed(gs, prev, cur, w, y, x);
  }

  lemma NextRow(gs: seq<Seg>, prev: Option<seq<byte>>, cur: seq<byte>, w: nat, y: nat)
    requires prev.Some? ==> |prev.value| == |cur|
    requires SoFar(gs, prev, cur, w, y, w)
    ensures SoFar(gs, prev, cur, w, y + 1, 0)
  {
    hide Owed, Carries, IsTight;
  }

  /** What the scan found: a run from one changed pixel to another. */
  ghost predicate IsRun(prev: Option<seq<byte>>, cur: seq<byte>, w: nat, y: nat, start: nat, end: nat, x: nat)
    requires prev.Some? ==> |prev.value| == |cur|
  {
    && start < end <= x <= w && (x == w || end + 4 <= x)
    && Place(y, start, w) < |cur| && !Same(prev, cur, Place(y, start, w))
    && Place(y, end - 1, w) < |cur| && !Same(prev, cur, Place(y, end - 1, w))
    && (forall u :: end <= u < x ==> StillSame(y, u, prev, cur, w))
    && forall k :: 0 <= k <= end - start - 4 ==> !Quiet(prev, cur, Place(y, start, w), k)
  }

  lemma RunFound(prev: Option<seq<byte>>, cur: seq<byte>, w: nat, y: nat, start: nat, x: nat, gap: nat)
    requires Frames(prev, cur, w, y)
    requires start + gap < x <= w && gap <= 4 && (gap == 4 || x == w)
    requires !Same(RowOf(prev, y, w), Row(cur, y, w), start) && !Same(RowOf(prev, y, w), Row(cur, y, w), x - gap - 1)
    requires forall k :: x - gap <= k < x ==> Same(RowOf(prev, y, w), Row(cur, y, w), k)
    requires forall k :: 0 <= k <= x - gap - start - 4 ==> !Quiet(RowOf(prev, y, w), Row(cur, y, w), start, k)
    ensures IsRun(prev, cur, w, y, start, x - gap, x)
  {
    RowSame(prev, cur, w, y, start);
    RowSame(prev, cur, w, y, x - gap - 1);
    hide Place, Same, Quiet, RowOf, Row, Frames;
    forall u: nat | x - gap <= u < x
      ensures StillSame(y, u, prev, cur, w)
    {
      RowSame(prev, cur, w, y, u);
    }
    forall k: nat | k <= x - gap - start - 4
      ensures !Quiet(prev, cur, Place(y, start, w), k)
    {
      RowQuiet(prev, cur, w, y, start, k);
    }
  }

  lemma RunStands(cur: seq<byte>, w: nat, y: nat, start: nat, end: nat)
    requires Place(y, 0, w) + w <= |cur| && start <= end <= w
    ensures Stands(y, start, Row(cur, y, w)[start..end], cur, w)
  {
    PlacePlus(y, 0, start, w);
    hide Place;
    var from := Place(y, 0, w);
    SubSlice(cur, from, from + w, start, end - start);
  }

  lemma RunCarried(gs: seq<Seg>, cur: seq<byte>, w: nat, y: nat, start: nat, run: seq<byte>, x: nat, x': nat)
    requires AllCarry(gs, cur, w, y, x) && Stands(y, start, run, cur, w) && x' > 0
    ensures AllCarry(gs + Pieces(y, start, run), cur, w, y, x')
  {
    PiecesCarry(y, start, run, cur, w);
    hide Carries, Stands, CoveredBy, Pieces;
  }

  lemma RunSwept(gs: seq<Seg>, prev: Option<seq<byte>>, cur: seq<byte>, w: nat, y: nat, start: nat, run: seq<byte>,
                 x: nat)
    requires prev.Some? ==> |prev.value| == |cur|
    requires Swept(gs, prev, cur, w, y, start) && Stands(y, start, run, cur, w)
    requires IsRun(prev, cur, w, y, start, start + |run|, x)
    ensures Swept(gs + Pieces(y, start, run), prev, cur, w, y, x)
  {
    PiecesCarry(y, start, run, cur, w);
    hide Carries, Stands, CoveredBy, Pieces, Place, Same, Quiet;
    var more := Pieces(y, start, run);
    forall v: nat, u: nat | u < w && (v < y || (v == y && u < x))
      ensures Owed(gs + more, prev, cur, w, v, u)
    {
      CoveredWider(gs, more, v, u);
      if v == y && u >= start + |run| {
        assert StillSame(y, u, prev, cur, w);
      } else if v == y && u >= start {
        assert CoveredBy(more, y, u);
      } else {
        assert Owed(gs, prev, cur, w, v, u);
      }
    }
  }

  lemma RunTrim(prev: Option<seq<byte>>, cur: seq<byte>, w: nat, y: nat, start: nat, run: seq<byte>, x: nat)
    requires prev.Some? ==> |prev.value| == |cur|
    requires IsRun(prev, cur, w, y, start, start + |run|, x) && Carries(Seg(y, start, run), cur, w)
    ensures Trim(Seg(y, start, run), prev, cur, w)
  {
    PlacePlus(y, start, |run| - 1, w);
    FirstInside(Seg(y, start, run), cur, w);
    hide Place, Same, Quiet, Carries;
  }

  lemma RunTight(gs: seq<Seg>, prev: Option<seq<byte>>, cur: seq<byte>, w: nat, y: nat, start: nat, run: seq<byte>,
                 x: nat)
    requires prev.Some? ==> |prev.value| == |cur|
    requires w <= 65535 && TightSoFar(gs, prev, cur, w, y, start) && Stands(y, start, run, cur, w)
    requires IsRun(prev, cur, w, y, start, start + |run|, x)
    ensures TightSoFar(gs + Pieces(y, start, run), prev, cur, w, y, x) && |Pieces(y, start, run)| == 1
  {
    OnePiece(y, start, run);
    var s := Seg(y, start, run);
    StandsCarries(y, start, run, cur, w);
    hide Carries, Stands, Pieces, Place, Same, Quiet;
    RunTrim(prev, cur, w, y, start, run, x);
    hide Trim;
    var all := gs + [s];
    forall i, j | 0 <= i < j < |all|
      ensures Apart(all[i], all[j])
    {
      assert i < |gs| && all[i] == gs[i] && Behind(gs[i], y, start, w);
      assert j < |gs| ==> all[j] == gs[j] && Apart(gs[i], gs[j]);
    }
  }

  lemma RunAdded(gs: seq<Seg>, prev: Option<seq<byte>>, cur: seq<byte>, w: nat, y: nat, start: nat, end: nat, x: nat)
    requires Frames(prev, cur, w, y) && SoFar(gs, prev, cur, w, y, start) && IsRun(prev, cur, w, y, start, end, x)
    ensures SoFar(gs + Pieces(y, start, Row(cur, y, w)[start..end]), prev, cur, w, y, x)
    ensures w <= 65535 ==> Pieces(y, start, Row(cur, y, w)[start..end]) == [Seg(y, start, Row(cur, y, w)[start..end])]
  {
    hide AllCarry, Swept, TightSoFar, Stands, Pieces, Place, Same, Quiet, IsRun;
    RunShape(prev, cur, w, y, start, end, x);
    var run := Row(cur, y, w)[start..end];
    RunStands(cur, w, y, start, end);
    RunCarried(gs, cur, w, y, start, run, start, x);
    RunSwept(gs, prev, cur, w, y, start, run, x);
    if w <= 65535 {
      RunTight(gs, prev, cur, w, y, start, run, x);
      OnePiece(y, start, run);
    }
  }

  lemma RunShape(prev: Option<seq<byte>>, cur: seq<byte>, w: nat, y: nat, start: nat, end: nat, x: nat)
    requires prev.Some? ==> |prev.value| == |cur|
    requires IsRun(prev, cur, w, y, start, end, x)
    ensures start < end <= x <= w && (x == w || end + 4 <= x)
  {}

  lemma OnePacked(gs: seq<Seg>, s: Seg)
    requires AllPackable(gs + [s])
    ensures AllPackable(gs) && |PackAll(gs + [s])| == |PackAll(gs)| + 6 + |s.pixels|
  {
    assert forall i :: 0 <= i < |gs| ==> (gs + [s])[i] == gs[i];
    assert (gs + [s])[|gs|] == s;
    PackAllSnoc(gs, s);
  }

  /** The runs of one row, packed behind the segments packed so far. */
  method CodeRow(prev: Option<seq<byte>>, cur: seq<byte>, w: nat, y: nat, segs: seq<byte>, n: nat, ghost gs: seq<Seg>)
    returns (ok: bool, segs': seq<byte>, n': nat, ghost gs': seq<Seg>)
    requires Frames(prev, cur, w, y) && SoFar(gs, prev, cur, w, y, 0)
    requires AllPackable(gs) && segs == PackAll(gs) && n == |gs|
    ensures w <= 65535 && y <= 65535 ==> ok
    ensures ok ==> SoFar(gs', prev, cur, w, y, w)
    ensures ok ==> AllPackable(gs') && segs' == PackAll(gs') && n' == |gs'|
    ensures ok && w <= 65535 ==> 5 * (|gs'| - |gs|) <= w + 4
    ensures ok && w <= 65535 ==> |segs'| <= |segs| + 6 * (n' - n) + w
  {
    hide Place, Same, Quiet, SoFar, IsRun, Pieces, PackAll, RowOf, Row;
    var a, b := RowOf(prev, y, w), Row(cur, y, w);
    segs', n', gs' := segs, n, gs;
    var x: nat := 0;
    while x < w
      invariant x <= w && SoFar(gs', prev, cur, w, y, x)
      invariant AllPackable(gs') && segs' == PackAll(gs') && n' == |gs'|
      invariant w <= 65535 ==> 5 * (|gs'| - |gs|) <= (if x < w then x else w + 4)
      invariant w <= 65535 ==> |segs'| <= |segs| + 6 * (n' - n) + x
    {
      if Same(a, b, x) {
        SameSkipped(gs', prev, cur, w, y, x);
        x := x + 1;
      } else {
        var start := x;
        var gap: nat;
        x, gap := RunEnd(a, b, start);
        RunFound(prev, cur, w, y, start, x, gap);
        RunAdded(gs', prev, cur, w, y, start, x - gap, x);
        var run := b[start..x - gap];
        ok, segs', n' := EmitRun(y, start, run, segs', n', gs');
        if !ok {
          return;
        }
        if w <= 65535 {
          OnePacked(gs', Seg(y, start, run));
        }
        gs' := gs' + Pieces(y, start, run);
      }
    }
    ok := true;
  }

  // ---------------------------------------------------------------- one frame

  lemma SoFarStart(prev: Option<seq<byte>>, cur: seq<byte>, w: nat)
    requires prev.Some? ==> |prev.value| == |cur|
    ensures SoFar([], prev, cur, w, 0, 0)
  {}

  lemma SoFarEnd(gs: seq<Seg>, prev: Option<seq<byte>>, cur: seq<byte>, w: nat, h: nat)
    requires |cur| == w * h && (prev.Some? ==> |prev.value| == |cur|)
    requires SoFar(gs, prev, cur, w, h, 0)
    ensures IsDelta(gs, prev, cur, w, h) && (w <= 65535 ==> IsTight(gs, prev, cur, w))
  {
    hide Carries, Trim, Place, CoveredBy, Apart;
    forall y: nat, x: nat | y < h && x < w && Place(y, x, w) < |cur| && !Same(prev, cur, Place(y, x, w))
      ensures CoveredBy(gs, y, x)
    {
      assert Owed(gs, prev, cur, w, y, x);
    }
  }

  lemma RowInside(prev: Option<seq<byte>>, cur: seq<byte>, w: nat, h: nat, y: nat)
    requires |cur| == w * h && (prev.Some? ==> |prev.value| == |cur|) && y < h
    ensures Frames(prev, cur, w, y)
  {
    LessRow(y, h, w);
  }

  lemma OneRowMore(y: nat, n: nat, more: nat, per: nat)
    requires n <= y * per && more <= per
    ensures n + more <= (y + 1) * per
  {}

  lemma RowMore(y: nat, w: nat)
    ensures (y + 1) * w == y * w + w
  {}

  /** The runs of all rows. */
  method CodeRows(prev: Option<seq<byte>>, cur: seq<byte>, w: nat, h: nat)
    returns (ok: bool, segs: seq<byte>, n: nat, ghost gs: seq<Seg>)
    requires |cur| == w * h && (prev.Some? ==> |prev.value| == |cur|)
    ensures w <= 65535 && h <= 65536 ==> ok
    ensures ok ==> AllPackable(gs) && segs == PackAll(gs) && n == |gs| && SoFar(gs, prev, cur, w, h, 0)
    ensures ok && w <= 65535 ==> |gs| <= h * ((w + 4) / 5) && |segs| <= 6 * n + h * w
  {
    hide Same, SoFar, PackAll;
    segs, n := [], 0;
    var y: nat := 0;
    gs := [];
    NothingPacked();
    SoFarStart(prev, cur, w);
    while y < h
      invariant y <= h && SoFar(gs, prev, cur, w, y, 0)
      invariant AllPackable(gs) && segs == PackAll(gs) && n == |gs|
      invariant w <= 65535 ==> |gs| <= y * ((w + 4) / 5) && |segs| <= 6 * n + y * w
    {
      RowInside(prev, cur, w, h, y);
      ghost var before := |gs|;
      ok, segs, n, gs := CodeRow(prev, cur, w, y, segs, n, gs);
      if !ok {
        return;
      }
      NextRow(gs, prev, cur, w, y);
      if w <= 65535 && before <= |gs| {
        OneRowMore(y, before, |gs| - before, (w + 4) / 5);
        RowMore(y, w);
      }
      y := y + 1;
    }
    ok := true;
  }

  /** The segments that turn one frame into the next, behind their count; nothing when a row, a column or
      the count is too large for its field. */
  method DeltaFrame(prev: Option<seq<byte>>, cur: seq<byte>, w: nat, h: nat)
    returns (r: Option<seq<byte>>, ghost gs: seq<Seg>)
    requires |cur| == w * h && (prev.Some? ==> |prev.value| == |cur|)
    ensures r.Some? ==> AllPackable(gs) && |gs| < 0x1_0000 && r.value == FrameBytes(gs) && IsDelta(gs, prev, cur, w, h)
    ensures w <= 65535 && h <= 65536 ==>
      && IsDelta(gs, prev, cur, w, h) && IsTight(gs, prev, cur, w)
      && |gs| <= h * ((w + 4) / 5)
      && (r.Some? <==> |gs| < 0x1_0000)
    ensures r.Some? ==> IsDeltaBytes(r.value, prev, cur, w, h)
    ensures w <= 65535 && h <= 65536 && h * ((w + 4) / 5) < 0x1_0000 ==> r.Some?
    ensures w <= 65535 && r.Some? ==> |r.value| <= 2 + 6 * 65535 + h * w
  {
    hide Same, SoFar, PackAll, IsDelta, IsTight;
    var ok, segs, n;
    ok, segs, n, gs := CodeRows(prev, cur, w, h);
    if !ok {
      return None, gs;
    }
    SoFarEnd(gs, prev, cur, w, h);
    if n >= 0x1_0000 {
      return None, gs;
    }
    r := Some(Le16(n) + segs);
    assert r.value == FrameBytes(gs);
  }

  lemma NothingPacked()
    ensures PackAll([]) == []
  {}

  // ---------------------------------------------------------------- a clip

  /** The frame before frame `k`. */
  function Before(frames: seq<seq<byte>>, k: nat): Option<seq<byte>>
    requires k <= |frames|
  {
    if k == 0 then None else Some(frames[k - 1])
  }

  predicate Sized(frames: seq<seq<byte>>, w: nat, h: nat) {
    forall i :: 0 <= i < |frames| ==> |frames[i]| == w * h
  }

  ghost predicate Codes(ds: seq<seq<byte>>, frames: seq<seq<byte>>, w: nat, h: nat)
    requires Sized(frames, w, h)
  {
    && |ds| <= |frames|
    && forall i :: 0 <= i < |ds| ==> |ds[i]| < 0x1_0000_0000 && IsDeltaBytes(ds[i], Before(frames, i), frames[i], w, h)
  }

  /** Each frame's bytes behind their length. */
  function Chunks(ds: seq<seq<byte>>): seq<byte>
    requires forall i :: 0 <= i < |ds| ==> |ds[i]| < 0x1_0000_0000
  {
    if ds == [] then [] else Chunks(ds[..|ds| - 1]) + Le32(|ds[|ds| - 1]|) + ds[|ds| - 1]
  }

  function ClipHeader(w: nat, h: nat, fps: nat, count: nat): (s: seq<byte>)
    requires w < 0x1_0000 && h < 0x1_0000 && fps < 0x1_0000 && count < 0x1_0000
    ensures |s| == 10
  {
    Le16(w) + Le16(h) + Le16(fps) + Le16(count) + Le16(0)
  }

  lemma ChunksSnoc(ds: seq<seq<byte>>, d: seq<byte>)
    requires forall i :: 0 <= i < |ds| ==> |ds[i]| < 0x1_0000_0000
    requires |d| < 0x1_0000_0000
    ensures forall i :: 0 <= i < |ds + [d]| ==> |(ds + [d])[i]| < 0x1_0000_0000
    ensures Chunks(ds + [d]) == Chunks(ds) + Le32(|d|) + d
  {
    assert (ds + [d])[..|ds|] == ds;
    hide Le32;
  }

  lemma CodesMore(ds: seq<seq<byte>>, d: seq<byte>, gs: seq<Seg>, frames: seq<seq<byte>>, w: nat, h: nat)
    requires Sized(frames, w, h) && Codes(ds, frames, w, h) && |ds| < |frames| && |d| < 0x1_0000_0000
    requires AllPackable(gs) && |gs| < 0x1_0000 && d == FrameBytes(gs)
    requires IsDelta(gs, Before(frames, |ds|), frames[|ds|], w, h)
    ensures Codes(ds + [d], frames, w, h)
  {
    hide IsDelta, FrameBytes, AllPackable;
    assert IsDeltaBytes(d, Before(frames, |ds|), frames[|ds|], w, h);
  }

  lemma PictureSize(w: nat, h: nat)
    ensures w < 0x8000 && h < 0x8000 ==> h * w < 0x4000_0000
  {
    if w < 0x8000 && h < 0x8000 {
      LessRow(h, 0x8000, w);
    }
  }

  /** A clip: its header and its frames, each coded against the one before. */
  method VideoBlock(frames: seq<seq<byte>>, w: nat, h: nat, fps: nat)
    returns (r: Option<seq<byte>>, ghost ds: seq<seq<byte>>)
    requires frames != [] && Sized(frames, w, h)
    ensures r.Some? ==> w < 0x1_0000 && h < 0x1_0000 && fps < 0x1_0000 && |frames| < 0x1_0000
    ensures r.Some? ==> |ds| == |frames| && Codes(ds, frames, w, h)
    ensures r.Some? ==> r.value == ClipHeader(w, h, fps, |frames|) + Chunks(ds)
    ensures w < 0x8000 && h < 0x8000 && fps < 0x1_0000 && |frames| < 0x1_0000 && h * ((w + 4) / 5) < 0x1_0000 ==>
      r.Some?
  {
    hide IsDelta, FrameBytes, ClipHeader, Chunks, Le32, IsDeltaBytes, IsTight, AllPackable;
    ds := [];
    if w >= 0x1_0000 || h >= 0x1_0000 || fps >= 0x1_0000 || |frames| >= 0x1_0000 {
      return None, [];
    }
    NoChunks();
    var out := ClipHeader(w, h, fps, |frames|);
    var prev: Option<seq<byte>> := None;
    var i := 0;
    while i < |frames|
      invariant i == |ds| <= |frames| && prev == Before(frames, i) && Codes(ds, frames, w, h)
      invariant out == ClipHeader(w, h, fps, |frames|) + Chunks(ds)
    {
      var d, gs := DeltaFrame(prev, frames[i], w, h);
      PictureSize(w, h);
      if d == None || |d.value| >= 0x1_0000_0000 {
        return None, ds;
      }
      CodesMore(ds, d.value, gs, frames, w, h);
      ChunksSnoc(ds, d.value);
      out := out + (Le32(|d.value|) + d.value);
      prev := Some(frames[i]);
      ds := ds + [d.value];
      i := i + 1;
    }
    r := Some(out);
  }

  lemma NoChunks()
    ensures Chunks([]) == []
  {}
}
