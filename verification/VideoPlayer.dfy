/**
 The guest's player for delta-coded clips (guest/reader/page.c): which frame comes next, and its
 segments copied into the working frame.
 */
module VideoPlayer {
  import opened Arith
  import opened Bytes
  import opened Video
  import opened VideoCoder

  /** What a clip's header says, and where its frames start and end in the bundle. */
  datatype Clip = Clip(w: nat, h: nat, fps: nat, count: nat, first: nat, end: nat)

  /** Refuses a clip with no header, no size (as 16-bit signed numbers) or another codec. */
  function OpenClip(buf: seq<byte>, p: nat, len: nat): Option<Clip>
    requires p + len <= |buf|
  {
    if len < 10 then None
    else
      var w, h, fps := ReadLe16(buf, p), ReadLe16(buf, p + 2), ReadLe16(buf, p + 4);
      if w == 0 || w >= 0x8000 || h == 0 || h >= 0x8000 || ReadLe16(buf, p + 8) != 0 then None
      else Some(Clip(w, h, if fps == 0 then 12 else fps, ReadLe16(buf, p + 6), p + 10, p + len))
  }

  /** Where the next frame's data is, and where the clip stands afterwards. */
  datatype Turn = Turn(at: Option<(nat, nat)>, frames: nat, next: nat, index: nat)

  function TakeTurn(buf: seq<byte>, first: nat, end: nat, frames: nat, next: nat, index: nat): (t: Turn)
    requires first <= next <= end <= |buf|
    ensures first <= t.next <= end
    ensures t.at.Some? ==> t.at.value.0 + t.at.value.1 == t.next
  {
    if frames == 0 then Turn(None, frames, next, index)
    else
      var again := index >= frames || next + 4 > end;
      var from, k := if again then first else next, if again then 0 else index;
      if from + 4 > end then Turn(None, frames, from, k)
      else
        var len, p := ReadLe32(buf, from), from + 4;
        if len > end - p then Turn(None, k, from, k)
        else Turn(Some((p, len)), frames, p + len, k + 1)
  }

  method CopyPixels(fb: array<byte>, at: nat, buf: seq<byte>, p: nat, n: nat)
    requires at + n <= fb.Length && p + n <= |buf|
    modifies fb
    ensures fb[..] == PutPixels(old(fb[..]), at, buf[p..p + n])
  {
    ghost var was := fb[..];
    var i: nat := 0;
    while i < n
      invariant i <= n
      invariant forall k :: at <= k < at + i ==> fb[k] == buf[p + (k - at)]
      invariant forall k :: 0 <= k < fb.Length && !(at <= k < at + i) ==> fb[k] == was[k]
    {
      fb[at + i] := buf[p + i];
      i := i + 1;
    }
    Copied(was, fb[..], at, buf, p, n);
  }

  lemma Copied(was: seq<byte>, now: seq<byte>, at: nat, buf: seq<byte>, p: nat, n: nat)
    requires |now| == |was| && at + n <= |was| && p + n <= |buf|
    requires forall k :: at <= k < at + n ==> now[k] == buf[p + (k - at)]
    requires forall k :: 0 <= k < |was| && !(at <= k < at + n) ==> now[k] == was[k]
    ensures now == PutPixels(was, at, buf[p..p + n])
  {
    var pic := PutPixels(was, at, buf[p..p + n]);
    forall k | 0 <= k < |was|
      ensures now[k] == pic[k]
    {
      if at <= k < at + n {
        assert pic[k] == buf[p..p + n][k - at];
      }
    }
  }

  class Player {
    const buf: seq<byte>
    const clip: Clip
    const fb: array<byte>
    var frames: nat
    var next: nat
    var frameIx: nat

    ghost predicate Valid()
      reads this
    {
      && clip.first <= next <= clip.end <= |buf|
      && fb.Length == clip.h * StrideOf(clip.w)
    }

    /** A clip that comes into view starts over on an empty working frame. */
    constructor (buf: seq<byte>, clip: Clip)
      requires clip.first <= clip.end <= |buf|
      ensures Valid() && this.buf == buf && this.clip == clip && fresh(fb)
      ensures frames == clip.count && next == clip.first && frameIx == 0
      ensures forall i :: 0 <= i < fb.Length ==> fb[i] == 0
    {
      this.buf := buf;
      this.clip := clip;
      this.fb := new byte[clip.h * StrideOf(clip.w)](_ => 0);
      this.frames := clip.count;
      this.next := clip.first;
      this.frameIx := 0;
    }

    /** Where the next frame's data starts, or nothing at a frame that is cut off. */
    method VideoNext() returns (at: Option<(nat, nat)>)
      requires Valid()
      modifies this
      ensures Valid()
      ensures Turn(at, frames, next, frameIx)
           == TakeTurn(buf, clip.first, clip.end, old(frames), old(next), old(frameIx))
    {
      if frames == 0 {
        return None;
      }
      if frameIx >= frames || next + 4 > clip.end {
        next := clip.first;
        frameIx := 0;
        if next + 4 > clip.end {
          return None;
        }
      }
      var flen := ReadLe32(buf, next);
      var p := next + 4;
      if flen > clip.end - p {
        frames := frameIx;
        return None;
      }
      next := p + flen;
      frameIx := frameIx + 1;
      at := Some((p, flen));
    }

    /** Copies one frame's segments into the working frame. */
    method VideoDelta(p: nat, flen: nat)
      requires Valid() && p + flen <= |buf|
      modifies fb
      ensures fb[..] == ApplyFrame(old(fb[..]), buf[p..p + flen], clip.w, clip.h)
    {
      hide ReadLe16, ReadSegs, ApplySeg, ApplyAll, StrideOf, PutPixels;
      ghost var bytes := buf[p..p + flen];
      if flen < 2 {
        return;
      }
      SliceLe16(buf, p, flen, 0);
      var segs := ReadLe16(buf, p);
      ghost var all := ReadSegs(bytes[2..], segs);
      ghost var done: seq<Seg> := [];
      var at, i: nat := p + 2, 0;
      var end := p + flen;
      assert bytes[2..] == buf[at..end];
      ApplyNone(fb[..], clip.w, clip.h);
      while i < segs
        invariant i <= segs && p + 2 <= at <= end
        invariant all == done + ReadSegs(buf[at..end], segs - i)
        invariant fb[..] == ApplyAll(old(fb[..]), done, clip.w, clip.h)
      {
        if at + 6 > end {
          NoneLeft(buf[at..end], segs - i);
          assert all == done;
          return;
        }
        SliceLe16(buf, at, end - at, 4);
        var sy, sx, sl := ReadLe16(buf, at), ReadLe16(buf, at + 2), ReadLe16(buf, at + 4);
        if at + 6 + sl > end {
          NoneLeft(buf[at..end], segs - i);
          assert all == done;
          return;
        }
        at := at + 6;
        ghost var s := Seg(sy, sx, buf[at..at + sl]);
        OneRead(buf, at - 6, end, segs - i);
        DrawSeg(sy, sx, sl, at);
        ApplyMore(old(fb[..]), done, s, clip.w, clip.h);
        done := done + [s];
        at := at + sl;
        i := i + 1;
        assert all == done + ReadSegs(buf[at..end], segs - i);
      }
      NoSegs(buf[at..end]);
      assert all == done;
    }

    /** A segment that does not fit the picture is passed over. */
    method DrawSeg(sy: nat, sx: nat, sl: nat, at: nat)
      requires Valid() && at + sl <= |buf|
      modifies fb
      ensures fb[..] == ApplySeg(old(fb[..]), Seg(sy, sx, buf[at..at + sl]), clip.w, clip.h)
    {
      hide StrideOf, PutPixels;
      if sy < clip.h && sx < clip.w && sl <= clip.w - sx {
        SegFits(Seg(sy, sx, buf[at..at + sl]), clip.w, clip.h);
        CopyPixels(fb, Place(sy, sx, StrideOf(clip.w)), buf, at, sl);
      }
    }

    /** Decodes the next frame, if there is one, into the working frame. */
    method VideoFrame()
      requires Valid()
      modifies this, fb
      ensures Valid()
      ensures var t := TakeTurn(buf, clip.first, clip.end, old(frames), old(next), old(frameIx));
        && frames == t.frames && next == t.next && frameIx == t.index
        && fb[..] == if t.at.None? then old(fb[..])
                     else ApplyFrame(old(fb[..]), buf[t.at.value.0..t.at.value.0 + t.at.value.1], clip.w, clip.h)
    {
      hide ApplyFrame, StrideOf;
      var at := VideoNext();
      if at.Some? {
        VideoDelta(at.value.0, at.value.1);
      }
    }

    /** The clip being played is these frames as the builder coded them. */
    ghost predicate Carries(ds: seq<seq<byte>>, pics: seq<seq<byte>>) {
      && pics != [] && |ds| == |pics| && Sized(pics, clip.w, clip.h) && Codes(ds, pics, clip.w, clip.h)
      && Stored(buf, clip.first, clip.end, ds)
    }

    /** The player stands after frame `k`, with that frame in the working frame. */
    ghost predicate At(ds: seq<seq<byte>>, pics: seq<seq<byte>>, k: nat)
      requires Carries(ds, pics)
      reads this, fb
    {
      && k <= |pics| && frames == |pics| && frameIx == k
      && next == StartOf(clip.first, ds, k)
      && (k > 0 ==> Holds(fb[..], pics[k - 1], clip.w, clip.h))
    }

    /** One more frame shows the next picture, and the first again after the last. */
    method VideoFrameOf(ghost ds: seq<seq<byte>>, ghost pics: seq<seq<byte>>, ghost k: nat)
      requires Valid() && Carries(ds, pics) && At(ds, pics, k)
      modifies this, fb
      ensures Valid() && At(ds, pics, if k == |pics| then 1 else k + 1)
    {
      hide PixelHeld, Chunks, StrideOf, StartOf, ApplyFrame, Codes, TakeTurn, IsDeltaBytes, ReadLe32;
      ghost var m := if k == |pics| then 0 else k;
      StoredAt(buf, clip.first, clip.end, ds, m);
      StartAtFirst(clip.first, ds);
      TurnTakes(buf, clip.first, clip.end, |pics|, next, k, StartOf(clip.first, ds, m), |ds[m]|);
      CodesAt(ds, pics, clip.w, clip.h, m);
      FrameReproduced(fb[..], ds[m], Before(pics, m), pics[m], clip.w, clip.h);
      VideoFrame();
    }

    /** A clip cut short: the frames it has whole, and what is left after them holds no other. */
    ghost predicate CarriesCut(ds: seq<seq<byte>>, pics: seq<seq<byte>>) {
      && pics != [] && |ds| == |pics| && Sized(pics, clip.w, clip.h) && Codes(ds, pics, clip.w, clip.h)
      && clip.first + |Chunks(ds)| <= clip.end <= |buf|
      && Stored(buf, clip.first, clip.first + |Chunks(ds)|, ds)
      && clip.count > |pics|
      && (CutInside(ds) || clip.first + |Chunks(ds)| + 4 > clip.end)
    }

    /** The cut is inside a frame, behind its length. */
    ghost predicate CutInside(ds: seq<seq<byte>>)
      requires forall i :: 0 <= i < |ds| ==> |ds[i]| < 0x1_0000_0000
    {
      var at := clip.first + |Chunks(ds)|;
      at + 4 <= clip.end <= |buf| && at + 4 + ReadLe32(buf, at) > clip.end
    }

    /** After `k` frames of a round of a cut clip, `n` turns in all. */
    ghost predicate AtCut(ds: seq<seq<byte>>, pics: seq<seq<byte>>, k: nat, n: nat)
      requires CarriesCut(ds, pics)
      reads this, fb
    {
      && k <= |pics| && frameIx == k && next == StartOf(clip.first, ds, k)
      && frames == (if CutInside(ds) && n > |pics| then |pics| else clip.count)
      && (k > 0 ==> Holds(fb[..], pics[k - 1], clip.w, clip.h))
    }

    /** One turn of a cut clip: the next whole frame and the first again after the last, but that the turn
        which first meets a cut inside a frame leaves the picture. */
    method TurnOfCut(ghost ds: seq<seq<byte>>, ghost pics: seq<seq<byte>>, ghost k: nat, ghost n: nat)
      requires Valid() && CarriesCut(ds, pics) && AtCut(ds, pics, k, n)
      requires CutInside(ds) && n <= |pics| ==> k == n
      modifies this, fb
      ensures Valid()
      ensures AtCut(ds, pics, if CutInside(ds) && n == |pics| then k else if k == |pics| then 1 else k + 1, n + 1)
    {
      hide PixelHeld, Chunks, StrideOf, StartOf, ApplyFrame, Codes, TakeTurn, IsDeltaBytes, ReadLe32;
      StartAtFirst(clip.first, ds);
      StartAtEnd(clip.first, ds);
      if CutInside(ds) && n == |pics| {
        TurnCut(buf, clip.first, clip.end, frames, next, k);
      } else {
        ghost var m, whole := if k == |pics| then 0 else k, clip.first + |Chunks(ds)|;
        StoredAt(buf, clip.first, whole, ds, m);
        TurnTakes(buf, clip.first, clip.end, frames, next, k, StartOf(clip.first, ds, m), |ds[m]|);
        CodesAt(ds, pics, clip.w, clip.h, m);
        FrameReproduced(fb[..], ds[m], Before(pics, m), pics[m], clip.w, clip.h);
      }
      VideoFrame();
    }

    lemma AtCutHolds(ds: seq<seq<byte>>, pics: seq<seq<byte>>, k: nat, n: nat)
      requires CarriesCut(ds, pics) && 0 < k && AtCut(ds, pics, k, n)
      ensures k <= |pics| && Holds(fb[..], pics[k - 1], clip.w, clip.h)
    {}

    /** A clip cut short loops over the frames it has whole. */
    method PlayCut(ghost ds: seq<seq<byte>>, ghost pics: seq<seq<byte>>, n: nat)
      requires Valid() && CarriesCut(ds, pics) && AtCut(ds, pics, 0, 0)
      modifies this, fb
      ensures Valid()
      ensures n > 0 ==> var m := if CutInside(ds) && n > |pics| then n - 2 else n - 1;
        Holds(fb[..], pics[m % |pics|], clip.w, clip.h)
    {
      hide AtCut, Valid, Codes, Sized, Holds, DueCut, Chunks, CutInside;
      ghost var inside := CutInside(ds);
      DueCutFacts(0, |pics|, inside);
      var i := 0;
      while i < n
        invariant i <= n && Valid() && AtCut(ds, pics, DueCut(i, |pics|, inside), i)
      {
        DueCutFacts(i, |pics|, inside);
        TurnOfCut(ds, pics, DueCut(i, |pics|, inside), i);
        i := i + 1;
      }
      if n > 0 {
        DueCutFacts(n, |pics|, inside);
        AtCutHolds(ds, pics, DueCut(n, |pics|, inside), n);
      }
    }

    lemma AtHolds(ds: seq<seq<byte>>, pics: seq<seq<byte>>, k: nat)
      requires Carries(ds, pics) && 0 < k <= |pics| && At(ds, pics, k)
      ensures Holds(fb[..], pics[k - 1], clip.w, clip.h)
    {}

    /** After any number of frames, once round or many times, the working frame holds the picture that is
        due. */
    method Play(ghost ds: seq<seq<byte>>, ghost pics: seq<seq<byte>>, n: nat)
      requires Valid() && Carries(ds, pics) && At(ds, pics, 0)
      modifies this, fb
      ensures Valid() && At(ds, pics, Due(n, |pics|))
      ensures n > 0 ==> Holds(fb[..], pics[(n - 1) % |pics|], clip.w, clip.h)
    {
      hide At, Valid, Stored, Codes, Sized, Holds, Due;
      DueFacts(0, |pics|);
      DueFacts(n, |pics|);
      var i := 0;
      while i < n
        invariant i <= n && Valid() && At(ds, pics, Due(i, |pics|))
      {
        VideoFrameOf(ds, pics, Due(i, |pics|));
        DueFacts(i, |pics|);
        i := i + 1;
      }
      if n > 0 {
        AtHolds(ds, pics, Due(n, |pics|));
      }
    }
  }

  /** How many frames of its round a clip cut short has shown. The turn that first meets a cut inside a frame
      takes nothing; a cut inside a length rounds back at once. */
  ghost function DueCut(n: nat, whole: nat, inside: bool): nat
    requires whole > 0
  {
    if inside && n > whole then Due(n - 1, whole) else Due(n, whole)
  }

  lemma DueCutFacts(n: nat, whole: nat, inside: bool)
    requires whole > 0
    ensures DueCut(n, whole, inside) <= whole && DueCut(0, whole, inside) == 0
    ensures n > 0 ==> DueCut(n, whole, inside) == (if inside && n > whole then n - 2 else n - 1) % whole + 1
    ensures inside && n < whole ==> DueCut(n, whole, inside) == n
    ensures inside && n == whole ==> DueCut(n, whole, inside) == whole == DueCut(n + 1, whole, inside)
    ensures !(inside && n == whole) ==>
      DueCut(n + 1, whole, inside) == if DueCut(n, whole, inside) == whole then 1 else DueCut(n, whole, inside) + 1
  {
    DueFacts(n, whole);
    if n > 0 {
      DueFacts(n - 1, whole);
      SmallDue(n, whole);
    }
  }

  lemma SmallDue(n: nat, whole: nat)
    requires whole > 0
    ensures n <= whole ==> Due(n, whole) == n
  {}

  /** How many frames of its round a clip of `count` frames has shown after `n` frames in all. */
  ghost function Due(n: nat, count: nat): nat
    requires count > 0
  {
    if n == 0 then 0 else (n - 1) % count + 1
  }

  lemma DueFacts(n: nat, count: nat)
    requires count > 0
    ensures Due(n, count) <= count && Due(0, count) == 0
    ensures n > 0 ==> Due(n, count) == (n - 1) % count + 1
    ensures Due(n + 1, count) == if Due(n, count) == count then 1 else Due(n, count) + 1
  {
    if n > 0 {
      ModNext(n, count);
    }
  }

  lemma CodesAt(ds: seq<seq<byte>>, pics: seq<seq<byte>>, w: nat, h: nat, m: nat)
    requires Sized(pics, w, h) && Codes(ds, pics, w, h) && m < |ds|
    ensures IsDeltaBytes(ds[m], Before(pics, m), pics[m], w, h)
  {}

  // ---------------------------------------------------------------- frames of a block

  lemma ChunksUnfold(ds: seq<seq<byte>>)
    requires ds != [] && forall i :: 0 <= i < |ds| ==> |ds[i]| < 0x1_0000_0000
    ensures var n := |ds| - 1;
      Chunks(ds) == Chunks(ds[..n]) + Le32(|ds[n]|) + ds[n]
  {}

  lemma LastPiece(a: seq<byte>, b: seq<byte>, c: seq<byte>)
    ensures var s := a + b + c;
      s[|a|..|a| + |b|] == b && s[|a| + |b|..|a| + |b| + |c|] == c
  {}

  lemma EarlyPiece(a: seq<byte>, b: seq<byte>, from: nat, to: nat)
    requires from <= to <= |a|
    ensures (a + b)[from..to] == a[from..to]
  {}

  lemma {:induction false} ChunkAt(ds: seq<seq<byte>>, k: nat)
    requires k < |ds| && forall i :: 0 <= i < |ds| ==> |ds[i]| < 0x1_0000_0000
    ensures var o := |Chunks(ds[..k])|;
      && o + 4 + |ds[k]| == |Chunks(ds[..k + 1])| <= |Chunks(ds)|
      && Chunks(ds)[o..o + 4] == Le32(|ds[k]|)
      && Chunks(ds)[o + 4..o + 4 + |ds[k]|] == ds[k]
    decreases |ds|
  {
    hide Chunks;
    var n := |ds| - 1;
    var front, o := ds[..n], |Chunks(ds[..k])|;
    ChunksUnfold(ds);
    if k < n {
      ChunkAt(front, k);
      assert front[..k] == ds[..k] && front[..k + 1] == ds[..k + 1];
      var last := Le32(|ds[n]|) + ds[n];
      assert Chunks(ds) == Chunks(front) + last;
      EarlyPiece(Chunks(front), last, o, o + 4);
      EarlyPiece(Chunks(front), last, o + 4, o + 4 + |ds[k]|);
    } else {
      assert ds[..k + 1] == ds;
      LastPiece(Chunks(front), Le32(|ds[n]|), ds[n]);
    }
  }

  /** The frames of a clip stand in the bundle one after the other. */
  ghost predicate Stored(buf: seq<byte>, first: nat, end: nat, ds: seq<seq<byte>>) {
    && (forall i :: 0 <= i < |ds| ==> |ds[i]| < 0x1_0000_0000)
    && first + |Chunks(ds)| == end <= |buf|
    && buf[first..end] == Chunks(ds)
  }

  ghost function StartOf(first: nat, ds: seq<seq<byte>>, k: nat): nat
    requires k <= |ds| && forall i :: 0 <= i < |ds| ==> |ds[i]| < 0x1_0000_0000
  {
    first + |Chunks(ds[..k])|
  }

  lemma StartAtFirst(first: nat, ds: seq<seq<byte>>)
    requires forall i :: 0 <= i < |ds| ==> |ds[i]| < 0x1_0000_0000
    ensures StartOf(first, ds, 0) == first
  {
    NoChunks();
    assert ds[..0] == [];
  }

  lemma StoredAt(buf: seq<byte>, first: nat, end: nat, ds: seq<seq<byte>>, k: nat)
    requires Stored(buf, first, end, ds) && k < |ds|
    ensures var o := StartOf(first, ds, k);
      && first <= o && o + 4 + |ds[k]| == StartOf(first, ds, k + 1) <= end
      && ReadLe32(buf, o) == |ds[k]| && buf[o + 4..o + 4 + |ds[k]|] == ds[k]
  {
    hide Le32, ReadLe32, Chunks;
    ChunkAt(ds, k);
    var o := |Chunks(ds[..k])|;
    SubSlice(buf, first, end, o, 4);
    SubSlice(buf, first, end, o + 4, |ds[k]|);
    Le32Back(buf, first + o, |ds[k]|);
    assert StartOf(first, ds, k) == first + o;
  }

  lemma StartAtEnd(first: nat, ds: seq<seq<byte>>)
    requires forall i :: 0 <= i < |ds| ==> |ds[i]| < 0x1_0000_0000
    ensures StartOf(first, ds, |ds|) == first + |Chunks(ds)|
  {
    assert ds[..|ds|] == ds;
    hide Chunks;
  }

  lemma TurnTakes(buf: seq<byte>, first: nat, end: nat, count: nat, next: nat, k: nat, from: nat, len: nat)
    requires first <= next <= end <= |buf| && count > 0
    requires from == (if k >= count || next + 4 > end then first else next)
    requires from + 4 + len <= end && ReadLe32(buf, from) == len
    ensures TakeTurn(buf, first, end, count, next, k)
         == Turn(Some((from + 4, len)), count, from + 4 + len, (if k >= count || next + 4 > end then 0 else k) + 1)
  {
    hide ReadLe32;
  }

  lemma TurnCut(buf: seq<byte>, first: nat, end: nat, count: nat, next: nat, k: nat)
    requires first <= next <= end <= |buf| && k < count && next + 4 <= end && next + 4 + ReadLe32(buf, next) > end
    ensures TakeTurn(buf, first, end, count, next, k) == Turn(None, k, next, k)
  {
    hide ReadLe32;
  }

  /** A block the builder made opens as its clip, at the beginning. */
  lemma BlockOpens(buf: seq<byte>, p: nat, block: seq<byte>, ds: seq<seq<byte>>, w: nat, h: nat, fps: nat, count: nat)
    requires w < 0x1_0000 && h < 0x1_0000 && fps < 0x1_0000 && count < 0x1_0000
    requires forall i :: 0 <= i < |ds| ==> |ds[i]| < 0x1_0000_0000
    requires block == ClipHeader(w, h, fps, count) + Chunks(ds)
    requires p + |block| <= |buf| && buf[p..p + |block|] == block
    ensures OpenClip(buf, p, |block|)
         == if 0 < w < 0x8000 && 0 < h < 0x8000
            then Some(Clip(w, h, if fps == 0 then 12 else fps, count, p + 10, p + |block|))
            else None
    ensures buf[p + 10..p + |block|] == Chunks(ds)
    ensures ReadLe16(buf, p) == w && ReadLe16(buf, p + 2) == h && ReadLe16(buf, p + 4) == fps
    ensures ReadLe16(buf, p + 6) == count && ReadLe16(buf, p + 8) == 0
  {
    hide Le16, ReadLe16, Chunks;
    var head := ClipHeader(w, h, fps, count);
    assert forall i :: 0 <= i < 10 ==> buf[p + i] == buf[p..p + |block|][i] == head[i];
    assert buf[p..p + 10] == head;
    assert head[0..2] == Le16(w) && head[2..4] == Le16(h) && head[4..6] == Le16(fps);
    assert head[6..8] == Le16(count) && head[8..10] == Le16(0);
    HeaderField(buf, p, head, 0, w);
    HeaderField(buf, p, head, 2, h);
    HeaderField(buf, p, head, 4, fps);
    HeaderField(buf, p, head, 6, count);
    HeaderField(buf, p, head, 8, 0);
    assert buf[p + 10..p + |block|] == block[10..];
  }

  /** Which blocks open: those with a header, a size that is positive as a signed number, and this codec. */
  lemma OpensExactly(buf: seq<byte>, p: nat, len: nat)
    requires p + len <= |buf|
    ensures OpenClip(buf, p, len).Some? <==>
            && len >= 10 && 0 < ReadLe16(buf, p) <= 32767 && 0 < ReadLe16(buf, p + 2) <= 32767
            && buf[p + 8] == 0 && buf[p + 9] == 0
  {}

  lemma HeaderField(buf: seq<byte>, p: nat, head: seq<byte>, o: nat, n: nat)
    requires p + |head| <= |buf| && buf[p..p + |head|] == head && o + 2 <= |head|
    requires n < 0x1_0000 && head[o..o + 2] == Le16(n)
    ensures ReadLe16(buf, p + o) == n
  {
    SubSlice(buf, p, p + |head|, o, 2);
    Le16Back(buf, p + o, n);
  }

  // ---------------------------------------------------------------- segments, one at a time

  lemma SliceLe16(buf: seq<byte>, p: nat, n: nat, o: nat)
    requires p + n <= |buf| && o + 2 <= n
    ensures ReadLe16(buf[p..p + n], o) == ReadLe16(buf, p + o)
  {}

  lemma NoneLeft(bytes: seq<byte>, n: nat)
    requires |bytes| < 6 || |bytes| < 6 + ReadLe16(bytes, 4)
    ensures ReadSegs(bytes, n) == []
  {}

  lemma OneOf(bytes: seq<byte>, n: nat)
    requires n > 0 && |bytes| >= 6 && |bytes| >= 6 + ReadLe16(bytes, 4)
    ensures var sl := ReadLe16(bytes, 4);
      ReadSegs(bytes, n)
      == [Seg(ReadLe16(bytes, 0), ReadLe16(bytes, 2), bytes[6..6 + sl])] + ReadSegs(bytes[6 + sl..], n - 1)
  {
    hide ReadLe16;
  }

  lemma OneRead(buf: seq<byte>, at: nat, end: nat, n: nat)
    requires at + 6 <= end <= |buf| && n > 0
    requires at + 6 + ReadLe16(buf, at + 4) <= end
    ensures var sl := ReadLe16(buf, at + 4);
      ReadSegs(buf[at..end], n)
      == [Seg(ReadLe16(buf, at), ReadLe16(buf, at + 2), buf[at + 6..at + 6 + sl])]
         + ReadSegs(buf[at + 6 + sl..end], n - 1)
  {
    hide ReadLe16, ReadSegs;
    SliceLe16(buf, at, end - at, 0);
    SliceLe16(buf, at, end - at, 2);
    SliceLe16(buf, at, end - at, 4);
    var sl := ReadLe16(buf, at + 4);
    SubSlice(buf, at, end, 6, sl);
    SubSlice(buf, at, end, 6 + sl, end - at - 6 - sl);
    OneOf(buf[at..end], n);
    assert buf[at..end][6 + sl..] == buf[at..end][6 + sl..end - at];
  }

  lemma ApplyNone(pic: seq<byte>, w: nat, h: nat)
    requires |pic| == h * StrideOf(w)
    ensures ApplyAll(pic, [], w, h) == pic
  {}

  lemma ApplyMore(pic: seq<byte>, done: seq<Seg>, s: Seg, w: nat, h: nat)
    requires |pic| == h * StrideOf(w)
    ensures ApplyAll(pic, done + [s], w, h) == ApplySeg(ApplyAll(pic, done, w, h), s, w, h)
  {
    assert (done + [s])[..|done|] == done;
  }

  /** From the builder's frames to the guest's screen: the clip stands anywhere in a bundle, is opened, and
      `n` frames of it are decoded. Nothing comes back when the builder or the guest refuses the clip. */
  method ShowClip(frames: seq<seq<byte>>, w: nat, h: nat, fps: nat, before: seq<byte>, after: seq<byte>, n: nat)
    returns (picture: Option<seq<byte>>)
    requires frames != [] && Sized(frames, w, h)
    ensures picture.Some? && n > 0 ==> Holds(picture.value, frames[(n - 1) % |frames|], w, h)
    ensures picture.Some? && n > 0 ==> Shown(picture.value, frames[(n - 1) % |frames|], w, h)
    ensures picture.Some? ==> 0 < w < 0x8000 && 0 < h < 0x8000
    ensures 0 < w < 0x8000 && 0 < h < 0x8000 && fps < 0x1_0000 && |frames| < 0x1_0000
            && h * ((w + 4) / 5) < 0x1_0000 ==>
      picture.Some?
  {
    hide Chunks, ClipHeader, Codes, Sized, Holds, OpenClip, StartOf, Shown;
    var block, ds := VideoBlock(frames, w, h, fps);
    if block == None {
      return None;
    }
    var buf := before + block.value + after;
    CodesShort(ds, frames, w, h);
    BlockOpens(buf, |before|, block.value, ds, w, h, fps, |frames|);
    var clip := OpenClip(buf, |before|, |block.value|);
    if clip == None {
      return None;
    }
    var player := new Player(buf, clip.value);
    StartAtFirst(clip.value.first, ds);
    player.Play(ds, frames, n);
    picture := Some(player.fb[..]);
    if n > 0 {
      HeldShown(picture.value, frames[(n - 1) % |frames|], w, h);
    }
  }

  lemma CodesShort(ds: seq<seq<byte>>, frames: seq<seq<byte>>, w: nat, h: nat)
    requires Sized(frames, w, h) && Codes(ds, frames, w, h)
    ensures forall i :: 0 <= i < |ds| ==> |ds[i]| < 0x1_0000_0000
  {}
}
