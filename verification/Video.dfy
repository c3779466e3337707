/**
 Delta-coded video: the builder's coder, which writes a frame as the runs that differ from the frame
 before, and the guest's decoder, which copies those runs over the picture it has.
 */
module Video {
  import opened Arith
  import opened Bytes

  /** A run of pixels for one row. */
  datatype Seg = Seg(y: nat, x: nat, pixels: seq<byte>)

  predicate Packable(s: Seg) {
    s.y < 0x1_0000 && s.x < 0x1_0000 && |s.pixels| < 0x1_0000
  }

  function Pack(s: Seg): seq<byte>
    requires Packable(s)
  {
    Le16(s.y) + Le16(s.x) + Le16(|s.pixels|) + s.pixels
  }

  function PackAll(gs: seq<Seg>): seq<byte>
    requires AllPackable(gs)
  {
    if gs == [] then [] else PackAll(gs[..|gs| - 1]) + Pack(gs[|gs| - 1])
  }

  // ---------------------------------------------------------------- what a delta is

  /** A frame is rows of `w` pixels one after the other. */
  function Place(y: nat, x: nat, w: nat): nat { y * w + x }

  /** The same pixel in the frame before, if there is one. */
  predicate Same(prev: Option<seq<byte>>, cur: seq<byte>, at: nat)
    requires at < |cur| && (prev.Some? ==> |prev.value| == |cur|)
  {
    prev.Some? && prev.value[at] == cur[at]
  }

  ghost predicate Carries(s: Seg, cur: seq<byte>, w: nat) {
    && s.pixels != []
    && s.x + |s.pixels| <= w
    && Place(s.y, s.x, w) + |s.pixels| <= |cur|
    && cur[Place(s.y, s.x, w)..Place(s.y, s.x, w) + |s.pixels|] == s.pixels
  }

  ghost predicate CoveredBy(gs: seq<Seg>, y: nat, x: nat) {
    exists i :: 0 <= i < |gs| && gs[i].y == y && gs[i].x <= x < gs[i].x + |gs[i].pixels|
  }

  /** Segments of a frame: each carries that frame's pixels, and every pixel that changed is in one. */
  ghost predicate IsDelta(gs: seq<Seg>, prev: Option<seq<byte>>, cur: seq<byte>, w: nat, h: nat)
    requires |cur| == w * h && (prev.Some? ==> |prev.value| == |cur|)
  {
    && (forall i :: 0 <= i < |gs| ==> gs[i].y < h && Carries(gs[i], cur, w))
    && (forall y, x :: 0 <= y < h && 0 <= x < w && Place(y, x, w) < |cur| && !Same(prev, cur, Place(y, x, w))
          ==> CoveredBy(gs, y, x))
  }

  /** Four pixels in a row that did not change. */
  ghost predicate Quiet(prev: Option<seq<byte>>, cur: seq<byte>, from: nat, k: nat)
    requires prev.Some? ==> |prev.value| == |cur|
  {
    && from + k + 4 <= |cur|
    && Same(prev, cur, from + k) && Same(prev, cur, from + k + 1)
    && Same(prev, cur, from + k + 2) && Same(prev, cur, from + k + 3)
  }

  /** A segment that starts and ends on a pixel that changed, with no quiet stretch inside. */
  ghost predicate Trim(s: Seg, prev: Option<seq<byte>>, cur: seq<byte>, w: nat)
    requires prev.Some? ==> |prev.value| == |cur|
  {
    && Carries(s, cur, w)
    && !Same(prev, cur, Place(s.y, s.x, w))
    && !Same(prev, cur, Place(s.y, s.x, w) + |s.pixels| - 1)
    && forall k :: 0 <= k <= |s.pixels| - 4 ==> !Quiet(prev, cur, Place(s.y, s.x, w), k)
  }

  /** In order, with at least four pixels between two segments of a row. */
  ghost predicate Apart(s: Seg, t: Seg) {
    s.y < t.y || (s.y == t.y && s.x + |s.pixels| + 4 <= t.x)
  }

  ghost predicate IsTight(gs: seq<Seg>, prev: Option<seq<byte>>, cur: seq<byte>, w: nat)
    requires prev.Some? ==> |prev.value| == |cur|
  {
    && (forall i, j :: 0 <= i < j < |gs| ==> Apart(gs[i], gs[j]))
    && (forall i :: 0 <= i < |gs| ==> Trim(gs[i], prev, cur, w))
  }

  // ---------------------------------------------------------------- the guest's side

  function StrideOf(w: nat): nat { (w + 3) / 4 * 4 }

  function PutPixels(pic: seq<byte>, at: nat, pixels: seq<byte>): (p: seq<byte>)
    requires at + |pixels| <= |pic|
    ensures |p| == |pic|
  {
    pic[..at] + pixels + pic[at + |pixels|..]
  }

  lemma SegFits(s: Seg, w: nat, h: nat)
    requires s.y < h && s.x + |s.pixels| <= w
    ensures Place(s.y, s.x, StrideOf(w)) + |s.pixels| <= h * StrideOf(w)
  {
    LessRow(s.y, h, StrideOf(w));
  }

  /** A segment that does not fit the picture is passed over. */
  function ApplySeg(pic: seq<byte>, s: Seg, w: nat, h: nat): (p: seq<byte>)
    requires |pic| == h * StrideOf(w)
    ensures |p| == |pic|
  {
    if s.y < h && s.x < w && |s.pixels| <= w - s.x then
      SegFits(s, w, h);
      PutPixels(pic, Place(s.y, s.x, StrideOf(w)), s.pixels)
    else pic
  }

  function ApplyAll(pic: seq<byte>, gs: seq<Seg>, w: nat, h: nat): (p: seq<byte>)
    requires |pic| == h * StrideOf(w)
    ensures |p| == |pic|
  {
    if gs == [] then pic else ApplySeg(ApplyAll(pic, gs[..|gs| - 1], w, h), gs[|gs| - 1], w, h)
  }

  /** Up to `n` segments, as many as are whole. */
  function ReadSegs(bytes: seq<byte>, n: nat): seq<Seg>
    decreases n
  {
    if n == 0 || |bytes| < 6 then []
    else
      var len := ReadLe16(bytes, 4);
      if |bytes| < 6 + len then []
      else [Seg(ReadLe16(bytes, 0), ReadLe16(bytes, 2), bytes[6..6 + len])] + ReadSegs(bytes[6 + len..], n - 1)
  }

  /** What one frame's bytes do to the picture. */
  function ApplyFrame(pic: seq<byte>, bytes: seq<byte>, w: nat, h: nat): (p: seq<byte>)
    requires |pic| == h * StrideOf(w)
    ensures |p| == |pic|
  {
    if |bytes| < 2 then pic else ApplyAll(pic, ReadSegs(bytes[2..], ReadLe16(bytes, 0)), w, h)
  }

  // ---------------------------------------------------------------- deltas reproduce frames

  /** The picture holds a frame; its padding columns hold anything. */
  ghost predicate Holds(pic: seq<byte>, frame: seq<byte>, w: nat, h: nat) {
    && |pic| == h * StrideOf(w) && |frame| == w * h
    && forall y, x :: 0 <= y < h && 0 <= x < w ==> PixelHeld(pic, frame, y, x, w)
  }

  ghost predicate PixelHeld(pic: seq<byte>, frame: seq<byte>, y: nat, x: nat, w: nat) {
    && Place(y, x, StrideOf(w)) < |pic| && Place(y, x, w) < |frame|
    && pic[Place(y, x, StrideOf(w))] == frame[Place(y, x, w)]
  }

  lemma {:induction false} ApplyAllPixel(pic: seq<byte>, gs: seq<Seg>, cur: seq<byte>, w: nat, h: nat, y: nat, x: nat)
    requires |pic| == h * StrideOf(w) && |cur| == w * h && y < h && x < w
    requires forall i :: 0 <= i < |gs| ==> gs[i].y < h && Carries(gs[i], cur, w)
    ensures Place(y, x, StrideOf(w)) < |pic| && Place(y, x, w) < |cur|
    ensures ApplyAll(pic, gs, w, h)[Place(y, x, StrideOf(w))]
         == if CoveredBy(gs, y, x) then cur[Place(y, x, w)] else pic[Place(y, x, StrideOf(w))]
    decreases |gs|
  {
    LessRow(y, h, StrideOf(w));
    LessRow(y, h, w);
    if gs != [] {
      var n := |gs| - 1;
      ApplyAllPixel(pic, gs[..n], cur, w, h, y, x);
      ApplySegPixel(ApplyAll(pic, gs[..n], w, h), gs[n], cur, w, h, y, x);
      CoveredByMore(gs, y, x);
    }
  }

  lemma CoveredByMore(gs: seq<Seg>, y: nat, x: nat)
    requires gs != []
    ensures var s := gs[|gs| - 1];
      CoveredBy(gs, y, x) <==> CoveredBy(gs[..|gs| - 1], y, x) || (s.y == y && s.x <= x < s.x + |s.pixels|)
  {
    var n := |gs| - 1;
    if i :| 0 <= i < n && gs[i].y == y && gs[i].x <= x < gs[i].x + |gs[i].pixels| {
      assert gs[..n][i] == gs[i];
    }
    if CoveredBy(gs[..n], y, x) {
      var i :| 0 <= i < n && gs[..n][i].y == y && gs[..n][i].x <= x < gs[..n][i].x + |gs[..n][i].pixels|;
      assert gs[i] == gs[..n][i];
    }
  }

  lemma PutPixelsAt(pic: seq<byte>, from: nat, pixels: seq<byte>, at: nat)
    requires from + |pixels| <= |pic| && at < |pic|
    ensures PutPixels(pic, from, pixels)[at] == if from <= at < from + |pixels| then pixels[at - from] else pic[at]
  {}

  lemma CarriesPixel(s: Seg, cur: seq<byte>, w: nat, k: nat)
    requires Carries(s, cur, w) && k < |s.pixels|
    ensures Place(s.y, s.x + k, w) < |cur| && s.pixels[k] == cur[Place(s.y, s.x + k, w)]
  {
    assert s.pixels[k] == cur[Place(s.y, s.x, w)..Place(s.y, s.x, w) + |s.pixels|][k];
  }

  /** A run covers the places of its own row's columns and no others. */
  lemma RunCovers(row: nat, col: nat, len: nat, y: nat, x: nat, stride: nat)
    requires col + len <= stride && x < stride
    ensures Place(row, col, stride) <= Place(y, x, stride) < Place(row, col, stride) + len
       <==> row == y && col <= x < col + len
  {
    var from, at := Place(row, col, stride), Place(y, x, stride);
    if from <= at < from + len {
      SamePlace(row, col + (at - from), y, x, stride);
    }
  }

  lemma ApplySegPixel(pic: seq<byte>, s: Seg, cur: seq<byte>, w: nat, h: nat, y: nat, x: nat)
    requires |pic| == h * StrideOf(w) && |cur| == w * h && y < h && x < w && s.y < h && Carries(s, cur, w)
    requires Place(y, x, StrideOf(w)) < |pic| && Place(y, x, w) < |cur|
    ensures ApplySeg(pic, s, w, h)[Place(y, x, StrideOf(w))]
         == if s.y == y && s.x <= x < s.x + |s.pixels| then cur[Place(y, x, w)] else pic[Place(y, x, StrideOf(w))]
  {
    hide PutPixels;
    var stride := StrideOf(w);
    var from, at := Place(s.y, s.x, stride), Place(y, x, stride);
    SegFits(s, w, h);
    RunCovers(s.y, s.x, |s.pixels|, y, x, stride);
    PutPixelsAt(pic, from, s.pixels, at);
    if s.y == y && s.x <= x < s.x + |s.pixels| {
      CarriesPixel(s, cur, w, x - s.x);
    }
  }

  /** Applying a frame's segments to the frame before makes the frame; with no frame before, applying
      them to any picture at all does. */
  lemma DeltaReproduces(pic: seq<byte>, gs: seq<Seg>, prev: Option<seq<byte>>, cur: seq<byte>, w: nat, h: nat)
    requires |pic| == h * StrideOf(w) && |cur| == w * h
    requires prev.Some? ==> Holds(pic, prev.value, w, h)
    requires IsDelta(gs, prev, cur, w, h)
    ensures Holds(ApplyAll(pic, gs, w, h), cur, w, h)
  {
    hide Carries, CoveredBy, ApplyAll, Place;
    var now := ApplyAll(pic, gs, w, h);
    forall y: nat, x: nat | y < h && x < w
      ensures PixelHeld(now, cur, y, x, w)
    {
      ApplyAllPixel(pic, gs, cur, w, h, y, x);
      if !CoveredBy(gs, y, x) {
        assert Same(prev, cur, Place(y, x, w));
        assert PixelHeld(pic, prev.value, y, x, w);
      }
    }
  }

  // ---------------------------------------------------------------- a frame's bytes

  predicate AllPackable(gs: seq<Seg>) { forall i :: 0 <= i < |gs| ==> Packable(gs[i]) }

  lemma {:induction false} PackAllFront(gs: seq<Seg>)
    requires gs != [] && AllPackable(gs)
    ensures PackAll(gs) == Pack(gs[0]) + PackAll(gs[1..])
    decreases |gs|
  {
    hide Pack;
    var n := |gs| - 1;
    if n > 0 {
      var rest := gs[1..];
      PackAllFront(gs[..n]);
      assert gs[..n][1..] == rest[..n - 1];
      assert rest[n - 1] == gs[n];
      assert PackAll(gs) == Pack(gs[0]) + PackAll(rest[..n - 1]) + Pack(gs[n]);
    }
  }

  lemma PackReads(s: Seg, tail: seq<byte>, n: nat)
    requires Packable(s)
    ensures ReadSegs(Pack(s) + tail, n + 1) == [s] + ReadSegs(tail, n)
  {
    hide Le16, ReadLe16;
    var b := Pack(s) + tail;
    assert b[0..2] == Le16(s.y) && b[2..4] == Le16(s.x) && b[4..6] == Le16(|s.pixels|);
    Le16Back(b, 0, s.y);
    Le16Back(b, 2, s.x);
    Le16Back(b, 4, |s.pixels|);
    assert b[6..6 + |s.pixels|] == s.pixels && b[6 + |s.pixels|..] == tail;
  }

  lemma NoSegs(bytes: seq<byte>)
    ensures ReadSegs(bytes, 0) == []
  {}

  lemma {:induction false} SegsReadBack(gs: seq<Seg>, tail: seq<byte>)
    requires AllPackable(gs)
    ensures ReadSegs(PackAll(gs) + tail, |gs|) == gs
    decreases |gs|
  {
    hide Pack, PackAll, ReadSegs;
    if gs == [] {
      NoSegs(PackAll(gs) + tail);
    } else {
      PackAllFront(gs);
      var later := gs[1..];
      var rest := PackAll(later) + tail;
      PackReads(gs[0], rest, |later|);
      assert PackAll(gs) + tail == Pack(gs[0]) + rest;
      SegsReadBack(later, tail);
      assert gs == [gs[0]] + later;
    }
  }

  function FrameBytes(gs: seq<Seg>): seq<byte>
    requires AllPackable(gs) && |gs| < 0x1_0000
  {
    Le16(|gs|) + PackAll(gs)
  }

  /** The bytes of some delta from one frame to another. */
  ghost predicate IsDeltaBytes(bytes: seq<byte>, prev: Option<seq<byte>>, cur: seq<byte>, w: nat, h: nat)
    requires |cur| == w * h && (prev.Some? ==> |prev.value| == |cur|)
  {
    exists gs :: AllPackable(gs) && |gs| < 0x1_0000 && bytes == FrameBytes(gs) && IsDelta(gs, prev, cur, w, h)
  }

  lemma FrameApplies(pic: seq<byte>, gs: seq<Seg>, w: nat, h: nat)
    requires |pic| == h * StrideOf(w) && AllPackable(gs) && |gs| < 0x1_0000
    ensures ApplyFrame(pic, FrameBytes(gs), w, h) == ApplyAll(pic, gs, w, h)
  {
    hide Le16, ReadLe16, ReadSegs, PackAll, ApplyAll, StrideOf;
    var bytes := FrameBytes(gs);
    assert bytes[0..2] == Le16(|gs|) && bytes[2..] == PackAll(gs) + [];
    Le16Back(bytes, 0, |gs|);
    SegsReadBack(gs, []);
  }

  lemma FrameReproduced(pic: seq<byte>, bytes: seq<byte>, prev: Option<seq<byte>>, cur: seq<byte>, w: nat, h: nat)
    requires |pic| == h * StrideOf(w) && |cur| == w * h
    requires prev.Some? ==> Holds(pic, prev.value, w, h)
    requires IsDeltaBytes(bytes, prev, cur, w, h)
    ensures Holds(ApplyFrame(pic, bytes, w, h), cur, w, h)
  {
    hide IsDelta, FrameBytes, ApplyFrame, ApplyAll, StrideOf, PixelHeld;
    var gs :| AllPackable(gs) && |gs| < 0x1_0000 && bytes == FrameBytes(gs) && IsDelta(gs, prev, cur, w, h);
    FrameApplies(pic, gs, w, h);
    DeltaReproduces(pic, gs, prev, cur, w, h);
  }

  // ---------------------------------------------------------------- in numbers

  /** Rows of pixels as a picture stores them: as long as the frame is wide, rounded up to four bytes. */
  lemma RowsRounded(w: nat)
    ensures StrideOf(w) % 4 == 0 && w <= StrideOf(w) < w + 4
  {}

  /** A picture shows a frame: each pixel of a row where the row is stored. */
  ghost predicate Shown(pic: seq<byte>, frame: seq<byte>, w: nat, h: nat) {
    && |pic| == h * RowSize(w) && |frame| == w * h
    && forall y, x :: 0 <= y < h && 0 <= x < w ==> OneShown(pic, frame, y, x, w)
  }

  function RowSize(w: nat): nat { if w % 4 == 0 then w else w + 4 - w % 4 }

  predicate OneShown(pic: seq<byte>, frame: seq<byte>, y: nat, x: nat, w: nat) {
    var at, from := y * RowSize(w) + x, y * w + x;
    at < |pic| && from < |frame| && pic[at] == frame[from]
  }

  lemma HeldShown(pic: seq<byte>, frame: seq<byte>, w: nat, h: nat)
    requires Holds(pic, frame, w, h)
    ensures Shown(pic, frame, w, h)
  {
    assert RowSize(w) == StrideOf(w);
    hide StrideOf, RowSize;
    forall y, x | 0 <= y < h && 0 <= x < w
      ensures OneShown(pic, frame, y, x, w)
    {
      assert PixelHeld(pic, frame, y, x, w);
    }
  }

  /** A packed segment: its row, its column and its length in two bytes each, and its pixels. A frame says first
      how many there are. */
  lemma PackedSays(s: Seg, gs: seq<Seg>)
    requires Packable(s) && AllPackable(gs) && |gs| < 0x1_0000
    ensures |Pack(s)| == 6 + |s.pixels| && Pack(s)[6..] == s.pixels
    ensures ReadLe16(Pack(s), 0) == s.y && ReadLe16(Pack(s), 2) == s.x && ReadLe16(Pack(s), 4) == |s.pixels|
    ensures |FrameBytes(gs)| >= 2 && ReadLe16(FrameBytes(gs), 0) == |gs| && FrameBytes(gs)[2..] == PackAll(gs)
  {
    hide Le16, ReadLe16, PackAll;
    var b, f := Pack(s), FrameBytes(gs);
    assert b[0..2] == Le16(s.y) && b[2..4] == Le16(s.x) && b[4..6] == Le16(|s.pixels|) && f[0..2] == Le16(|gs|);
    Le16Back(b, 0, s.y);
    Le16Back(b, 2, s.x);
    Le16Back(b, 4, |s.pixels|);
    Le16Back(f, 0, |gs|);
  }
}
